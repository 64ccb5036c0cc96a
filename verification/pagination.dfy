/**
 * The page loop of `main` in practice.py: pages 1 to TOTAL_PAGES are fetched
 * in turn, each page's records are appended to `all_books`, a page that
 * could not be fetched is passed over, and the first page that yields no
 * record ends the loop. The HTTP request is not modelled: the response to
 * each page's request is an input.
 */
module Pagination {
  import opened Wrappers
  import opened Extraction

  /** The page bound `total_pages`. */
  const TOTAL_PAGES: nat := 50

  /**
   * What `fetch_webpage` returned for one page: `None` after a request
   * error, or the body text together with the fragments the selector finds
   * in it.
   */
  datatype Response = FetchFailed | Fetched(body: string, pods: seq<Fragment>)

  /** What one visited page does to the loop. */
  datatype PageStep =
    | Skipped               // no content: nothing added, the loop goes on
    | Ended                 // content without a record: the loop breaks
    | Added(books: seq<Book>)  // records appended, the loop goes on

  /** One iteration's decision; an empty body counts as no content (`if html_content`). */
  function Step(r: Response): (s: PageStep)
    ensures s.Skipped? <==> r.FetchFailed? || r.body == ""
    ensures s.Ended? <==> r.Fetched? && r.body != "" && ExtractAll(r.pods) == []
    ensures s.Added? ==> s.books == ExtractAll(r.pods) && s.books != []
  {
    if r.FetchFailed? || r.body == "" then Skipped
    else
      var books := ExtractAll(r.pods);
      if books == [] then Ended else Added(books)
  }

  /** The records a page adds to `all_books` when it is visited. */
  function Contribution(r: Response): seq<Book> {
    if Step(r).Added? then Step(r).books else []
  }

  /** No page among `rs` ends the loop. */
  predicate NoEnd(rs: seq<Response>) {
    forall i :: 0 <= i < |rs| ==> !Step(rs[i]).Ended?
  }

  /** Specification of the loop as a fold: `all_books` after visiting `rs` in order. */
  function Harvest(rs: seq<Response>): seq<Book> {
    if rs == [] then []
    else match Step(rs[0])
      case Skipped => Harvest(rs[1..])
      case Ended => []
      case Added(books) => books + Harvest(rs[1..])
  }

  /** How many pages are requested: up to and including the first page that ends the loop. */
  function Visited(rs: seq<Response>): (n: nat)
    ensures n <= |rs|
    ensures n < |rs| ==> 0 < n && Step(rs[n - 1]).Ended?
    ensures forall i :: 0 <= i < n - 1 ==> !Step(rs[i]).Ended?
  {
    if rs == [] then 0
    else if Step(rs[0]).Ended? then 1
    else 1 + Visited(rs[1..])
  }

  /** The concatenation of the pages' contributions, in page order. */
  function Concat(rs: seq<Response>): seq<Book> {
    if rs == [] then [] else Contribution(rs[0]) + Concat(rs[1..])
  }

  /** The concatenation is empty exactly when no page contributes a record. */
  lemma {:induction false} ConcatEmptyIff(rs: seq<Response>)
    ensures Concat(rs) == [] <==> forall i :: 0 <= i < |rs| ==> Contribution(rs[i]) == []
  {
    if rs != [] {
      ConcatEmptyIff(rs[1..]);
      assert forall i :: 1 <= i < |rs| ==> rs[i] == rs[1..][i - 1];
    }
  }

  /** When no page ends the loop, `all_books` is the concatenation of every page's contribution. */
  lemma {:induction false} HarvestWithoutEndIsConcat(rs: seq<Response>)
    requires NoEnd(rs)
    ensures Harvest(rs) == Concat(rs)
  {
    if rs != [] {
      assert NoEnd(rs[1..]) by {
        forall i | 0 <= i < |rs[1..]| ensures !Step(rs[1..][i]).Ended? {
          assert rs[1..][i] == rs[i + 1];
        }
      }
      HarvestWithoutEndIsConcat(rs[1..]);
    }
  }

  /** Over pages that do not end the loop, the fold distributes over concatenation. */
  lemma {:induction false} HarvestAppend(a: seq<Response>, b: seq<Response>)
    requires NoEnd(a)
    ensures Harvest(a + b) == Harvest(a) + Harvest(b)
  {
    if a == [] {
      assert a + b == b;
    } else {
      assert (a + b)[1..] == a[1..] + b;
      assert (a + b)[0] == a[0];
      assert NoEnd(a[1..]) by {
        forall i | 0 <= i < |a[1..]| ensures !Step(a[1..][i]).Ended? {
          assert a[1..][i] == a[i + 1];
        }
      }
      HarvestAppend(a[1..], b);
    }
  }

  /** A page that ends the loop discards every page after it. */
  lemma HarvestStopsAt(a: seq<Response>, r: Response, rest: seq<Response>)
    requires NoEnd(a) && Step(r).Ended?
    ensures Harvest(a + [r] + rest) == Harvest(a)
  {
    HarvestAppend(a, [r] + rest);
    assert a + [r] + rest == a + ([r] + rest);
    assert ([r] + rest)[0] == r;
  }

  /** A failed fetch adds nothing and does not end the loop. */
  lemma {:induction false} FetchFailureIsPassedOver(a: seq<Response>, b: seq<Response>)
    ensures Harvest(a + [FetchFailed] + b) == Harvest(a + b)
  {
    if a == [] {
      assert a + [FetchFailed] + b == [FetchFailed] + b;
      assert ([FetchFailed] + b)[1..] == b;
      assert a + b == b;
    } else {
      assert (a + [FetchFailed] + b)[0] == a[0] && (a + [FetchFailed] + b)[1..] == a[1..] + [FetchFailed] + b;
      assert (a + b)[0] == a[0] && (a + b)[1..] == a[1..] + b;
      FetchFailureIsPassedOver(a[1..], b);
    }
  }

  /**
   * `all_books` is the in-order concatenation of what the visited pages
   * contributed; pages after the first one that ends the loop play no part.
   */
  lemma {:induction false} HarvestIsConcatOfVisited(rs: seq<Response>)
    ensures Harvest(rs) == Concat(rs[..Visited(rs)])
  {
    if rs != [] {
      var n := Visited(rs);
      var head := rs[..n];
      assert head[0] == rs[0];
      if Step(rs[0]).Ended? {
        assert head == [rs[0]];
        assert head[1..] == [];
      } else {
        HarvestIsConcatOfVisited(rs[1..]);
        assert head[1..] == rs[1..][..n - 1];
      }
    }
  }

  /**
   * A page fetched with a body whose fragments all raise yields no record,
   * so it ends the loop and every later page is lost.
   */
  lemma AllFaultyPageEndsLoop(before: seq<Response>, body: string, pods: seq<Fragment>, rest: seq<Response>)
    requires NoEnd(before) && body != ""
    requires forall i :: 0 <= i < |pods| ==> !Extractable(pods[i])
    ensures Step(Fetched(body, pods)).Ended?
    ensures Harvest(before + [Fetched(body, pods)] + rest) == Harvest(before)
    ensures Visited(before + [Fetched(body, pods)] + rest) == |before| + 1
  {
    ExtractAllEmptyIff(pods);
    HarvestStopsAt(before, Fetched(body, pods), rest);
    VisitedAtEnd(before, Fetched(body, pods), rest);
  }

  /**
   * When page 3 yields no record the loop halts there, whatever the bound:
   * only pages 1 and 2 contribute and three pages are requested.
   */
  lemma HaltsAtThirdPage(rs: seq<Response>)
    requires |rs| >= 3 && !Step(rs[0]).Ended? && !Step(rs[1]).Ended? && Step(rs[2]).Ended?
    ensures Harvest(rs) == Contribution(rs[0]) + Contribution(rs[1])
    ensures Visited(rs) == 3
  {
    var two := [rs[0], rs[1]];
    SplitAt(rs, 2);
    assert rs[..2] == two;
    HarvestExtend([], rs[0]);
    assert [] + [rs[0]] == [rs[0]];
    HarvestExtend([rs[0]], rs[1]);
    assert [rs[0]] + [rs[1]] == two;
    HarvestStopsAt(two, rs[2], rs[3..]);
    VisitedAtEnd(two, rs[2], rs[3..]);
  }

  /**
   * A first page whose two fragments both yield records, then a page with
   * no record: the run keeps exactly those two records, in page order, and
   * requests no page after the second.
   */
  lemma TwoRecordsThenEmptyPage(body: string, first: Fragment, second: Fragment, last: Response, later: seq<Response>)
    requires body != "" && Extractable(first) && Extractable(second) && Step(last).Ended?
    ensures var rs := [Fetched(body, [first, second]), last] + later;
      Harvest(rs) == [TryExtract(first).value, TryExtract(second).value] && Visited(rs) == 2
  {
    var page := Fetched(body, [first, second]);
    var rs := [page, last] + later;
    assert [first, second][1..] == [second] && [second][1..] == [];
    assert ExtractAll([first, second]) == [TryExtract(first).value, TryExtract(second).value];
    assert Contribution(page) == [TryExtract(first).value, TryExtract(second).value];
    assert rs == [page] + [last] + later;
    HarvestStopsAt([page], last, later);
    VisitedAtEnd([page], last, later);
    HarvestCons(page, []);
    assert [page] + [] == [page];
  }

  /** A page that does not end the loop adds its contribution in front of the rest. */
  lemma HarvestCons(r: Response, rest: seq<Response>)
    requires !Step(r).Ended?
    ensures Harvest([r] + rest) == Contribution(r) + Harvest(rest)
  {
    assert ([r] + rest)[0] == r && ([r] + rest)[1..] == rest;
  }

  /**
   * `main` from `total_pages = 50` on: with the table set up, pages are
   * requested in order until the bound or the first page without records.
   * `responses[k]` is the response to page k + 1. Returns `all_books` and
   * the number of pages requested.
   */
  method Scrape(schemaReady: bool, responses: seq<Response>) returns (allBooks: seq<Book>, visited: nat)
    requires |responses| == TOTAL_PAGES
    ensures !schemaReady ==> allBooks == [] && visited == 0
    ensures schemaReady ==> allBooks == Harvest(responses) && visited == Visited(responses)
  {
    allBooks := [];
    visited := 0;
    if !schemaReady {
      return;  // setting up the table failed: nothing is fetched
    }
    ghost var ended := false;
    for page := 1 to TOTAL_PAGES + 1
      invariant visited == page - 1
      invariant NoEnd(responses[..page - 1])
      invariant allBooks == Harvest(responses[..page - 1])
    {
      var response := responses[page - 1];
      visited := visited + 1;
      ghost var done := responses[..page - 1];
      SplitAt(responses, page - 1);
      if response.Fetched? && response.body != "" {
        var books := ParseBooks(Some(response.body), response.pods);
        if books != [] {
          allBooks := allBooks + books;
        } else {
          assert Step(response).Ended?;
          HarvestStopsAt(done, response, responses[page..]);
          VisitedAtEnd(done, response, responses[page..]);
          ended := true;
          break;
        }
      }
      HarvestExtend(done, response);
    }
    if !ended {
      assert responses[..TOTAL_PAGES] == responses;
    }
  }

  /** Cutting a sequence around its k-th element. */
  lemma SplitAt<T>(s: seq<T>, k: nat)
    requires k < |s|
    ensures s[..k + 1] == s[..k] + [s[k]]
    ensures s == s[..k] + [s[k]] + s[k + 1..]
  {
  }

  /** Visiting one more page that does not end the loop appends its contribution. */
  lemma HarvestExtend(done: seq<Response>, response: Response)
    requires NoEnd(done) && !Step(response).Ended?
    ensures NoEnd(done + [response])
    ensures Harvest(done + [response]) == Harvest(done) + Contribution(response)
  {
    NoEndExtend(done, response);
    HarvestAppend(done, [response]);
    HarvestCons(response, []);
    assert [response] + [] == [response];
  }

  /** A page that does not end the loop keeps a run free of ending pages. */
  lemma NoEndExtend(done: seq<Response>, response: Response)
    requires NoEnd(done) && !Step(response).Ended?
    ensures NoEnd(done + [response])
  {
    assert forall i :: 0 <= i < |done| ==> (done + [response])[i] == done[i];
  }

  /** The first page that ends the loop is the last one requested. */
  lemma {:induction false} VisitedAtEnd(a: seq<Response>, r: Response, rest: seq<Response>)
    requires NoEnd(a) && Step(r).Ended?
    ensures Visited(a + [r] + rest) == |a| + 1
  {
    var rs := a + [r] + rest;
    if a == [] {
      assert rs[0] == r;
    } else {
      assert rs[0] == a[0];
      assert rs[1..] == a[1..] + [r] + rest;
      assert NoEnd(a[1..]) by {
        forall i | 0 <= i < |a[1..]| ensures !Step(a[1..][i]).Ended? {
          assert a[1..][i] == a[i + 1];
        }
      }
      VisitedAtEnd(a[1..], r, rest);
    }
  }
}
