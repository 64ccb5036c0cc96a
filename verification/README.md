# Book catalogue scraper — verified model of its scrape pipeline

`practice.py` scrapes the paginated catalogue at `books.toscrape.com`. It
requests the pages one after another, turns every `article.product_pod`
fragment on a page into a book record (title, image URL, price, rating,
detail URL) and gathers the records of all pages in `all_books`. This
project models the parts of that pipeline that are logic rather than
glue. They are:

- **URL completion** (`Urls`). One function, `Complete(raw, base)`,
  instantiated for image sources (site root) and detail links (`/catalogue/`).
  Values that are absent, empty or already starting with `"http"` are kept.
  A value starting with `".."` loses its first three characters: the test
  looks at two, but the slice drops three. Anything else is appended to the
  base whole.
- **Per-fragment extraction** (`Extraction`). A fragment is the result of its
  four `select_one` lookups. `TryExtract` follows the `try` block step by
  step: a lookup that finds nothing, or `[-1]` on an empty class list,
  raises. `ParseBooks` is the loop of `parse_books`. It swallows each fault
  and appends the other fragments' records in document order. It is proved
  equal to the specification `ExtractAll`.
- **Pagination** (`Pagination`). `Scrape` is the `for page in range(1, total_pages + 1)`
  loop of `main`, with `total_pages = 50`. Each page's response is an
  input. A failed fetch (or an empty body) is passed over, a page with
  records is appended, and the first page without records ends the loop.
  `Scrape` is proved equal to the fold `Harvest` and to the page count
  `Visited`. `Harvest` is the fold of `Step` over the responses. A skipped
  page adds nothing. An `Added` page puts its records in front of the later
  pages' records. An `Ended` page discards the rest.
- **Row projection** (`Persistence`). This covers the driver-independent part
  of `save_to_database`: the empty-list guard and the 5-tuple rows of the
  batch. `main` never calls `save_to_database`, so the model does not claim
  that a run stores anything.

Five behaviours of the code that a reader might not expect:
- The `".."` marker is removed together with the character after it, so
  three characters go, not two (`Urls.MarkerTestedOnTwoDropsThree`).
- A failed fetch does not stop pagination (`Pagination.FetchFailureIsPassedOver`).
- A title link without a `title` attribute still yields a record, with title
  `None`. Titles are not guaranteed non-empty (`Extraction.TitleMayBeNone`).
- A fetch that returns an empty body fails `if html_content`. It is treated
  like a failed fetch and does not end the loop (`Pagination.Step`).
- A page fetched with a body whose fragments all raise yields no record.
  Like the true end of the catalogue, it ends the loop, and every later page
  is lost (`Pagination.AllFaultyPageEndsLoop`).

Inputs that stand for foreign code:
- A page's `Response` stands for what `fetch_webpage` returned, together with
  the fragments that `soup.select("article.product_pod")` finds in the body.
- `schemaReady` stands for the result of `create_database_and_table`.
- `connectionOpen` and the `DriverReply` stand for the database connection
  and the driver.

## Model

| member | source | states |
|---|---|---|
| `Urls.DropPrefix` | practice.py:124 | Python's `s[n:]` never fails: the result has length max(0, len(s) - n) and holds the characters of `s` from position n on |
| `Urls.Complete` | practice.py:120-126 | an absent value stays absent; an empty or `"http"`-prefixed value is returned unchanged; otherwise the result starts with the base, followed by the value minus its first three characters when it starts with `".."`, and by the whole value (ending with it) otherwise |
| `Urls.CompleteImage` | practice.py:120-126 | an image source that is changed becomes a URL under the site root `http://books.toscrape.com/` |
| `Urls.CompleteDetail` | practice.py:135-141 | a detail link that is changed becomes a URL under `http://books.toscrape.com/catalogue/` |
| `Urls.CompleteMakesAbsolute` | practice.py:121-126 | against an absolute base, every present non-empty completed value starts with `"http"` |
| `Urls.CompleteIdempotent` | practice.py:121 | completing an already completed value changes nothing (for an absolute base) |
| `Urls.BasesAreAbsolute` | practice.py:124-137 | both fixed bases, the site root and `/catalogue/`, start with `"http"` |
| `Urls.ImageIdempotent` | practice.py:120-126 | completing an image source twice gives the same result as completing it once |
| `Urls.DetailIdempotent` | practice.py:135-141 | completing a detail link twice gives the same result as completing it once |
| `Urls.ParentRelativeImage` | practice.py:123-124 | `"../" + tail` as an image source becomes the site root followed by `tail` |
| `Urls.MarkerTestedOnTwoDropsThree` | practice.py:138-139 | `".." + c + tail` as a detail link becomes the catalogue base followed by `tail`: the character after the two-character marker is lost too |
| `Extraction.TryExtract` | practice.py:113-152 | a fragment yields a record exactly when its title link, image, price and star rating are all present and the class list is non-empty; the record's title is the link's `title` attribute (possibly `None`), its detail URL the completed `href` of that same link, its image URL the completed `src`, its price the price text and its rating the last class token; a missing title link fails first, with the `h3 a` lookup, then a missing image |
| `Extraction.Emit` | practice.py:144-155 | a fragment contributes one record when it is extractable and none when its lookups raise |
| `Extraction.ExtractAll` | practice.py:112-155 | a page never yields more records than it has fragments |
| `Extraction.Keep` | practice.py:112-155 | defined as the order-preserving filter of the extractable fragments; its contract states that it is no longer than the fragment list, holds only extractable fragments of the page, and holds every extractable fragment of the page |
| `Extraction.ExtractAllAppend` | practice.py:112-155 | extraction of two fragment lists side by side is the concatenation of their extractions: each fragment is handled independently and in order |
| `Extraction.FaultySiblingIsSkipped` | practice.py:154-155 | a fragment whose extraction raises drops out and leaves the records of the fragments before and after it unchanged |
| `Extraction.ExtractAllIsImageOfKeep` | practice.py:112-157 | the output has exactly as many records as there are extractable fragments, and its i-th record is the one built from the i-th extractable fragment |
| `Extraction.ExtractAllEmptyIff` | practice.py:112-157 | a page yields no record if and only if none of its fragments is extractable |
| `Extraction.TitleMayBeNone` | practice.py:117 | a title link with no `title` attribute still produces a record, and that record's title is `None` |
| `Extraction.ParseBooks` | practice.py:97-157 | absent or empty content gives the empty list; otherwise the loop's result equals `ExtractAll` of the page's fragments |
| `Pagination.Step` | practice.py:226-237 | a page is passed over exactly when its fetch failed or its body is empty; it ends the loop exactly when it was fetched with a body but yields no record; otherwise it adds its (non-empty) extracted records |
| `Pagination.Visited` | practice.py:215-237 | at most all pages are requested; pages before the last one requested never end the loop; when fewer than all are requested, the last one requested ended the loop |
| `Pagination.HarvestWithoutEndIsConcat` | practice.py:232-234 | when no page ends the loop, `all_books` (the fold `Harvest`) is the in-order concatenation of every page's contribution |
| `Pagination.ConcatEmptyIff` | practice.py:232-234 | the in-order concatenation `Concat` of the pages' contributions is empty if and only if every page contributes nothing |
| `Pagination.HarvestAppend` | practice.py:232-234 | over pages that do not end the loop, the accumulated records of two page runs in a row are the concatenation of each run's records |
| `Pagination.HarvestCons` | practice.py:232-234 | a page that does not end the loop puts its records in front of the records of the later pages |
| `Pagination.HarvestExtend` | practice.py:232-234 | one more page that does not end the loop keeps the run free of ending pages and appends that page's records to `all_books` |
| `Pagination.NoEndExtend` | practice.py:232-237 | a page that does not end the loop, added after pages that do not, leaves a run with no ending page |
| `Pagination.HarvestStopsAt` | practice.py:235-237 | the first page without records discards every later page: the result is what the earlier pages gave |
| `Pagination.VisitedAtEnd` | practice.py:237 | the first page without records is the last page requested |
| `Pagination.FetchFailureIsPassedOver` | practice.py:244-245 | a failed fetch anywhere among the pages adds nothing and does not stop the loop: the result is as if that page were absent |
| `Pagination.HarvestIsConcatOfVisited` | practice.py:213-245 | `all_books` is the in-order concatenation of the records added by the requested pages, that is, the pages up to and including the first page without records |
| `Pagination.AllFaultyPageEndsLoop` | practice.py:230-237 | a page fetched with a non-empty body whose fragments all raise ends the loop: `all_books` keeps only what the earlier pages gave, and it is the last page requested |
| `Pagination.HaltsAtThirdPage` | practice.py:235-237 | when page 3 yields no record the loop requests three pages and keeps only what pages 1 and 2 added, whatever the bound |
| `Pagination.TwoRecordsThenEmptyPage` | practice.py:226-237 | a first page with two extractable fragments followed by a page without records leaves exactly those two records, in order, after two requests |
| `Pagination.Scrape` | practice.py:209-245 | when the table setup fails nothing is requested and `all_books` is empty; otherwise `all_books` equals `Harvest` of the 50 responses and the number of pages requested equals `Visited` of them |
| `Persistence.BookTuples` | practice.py:180-181 | one row per book, in list order, each row being (title, image_url, price, rating, detail_url) of the same book |
| `Persistence.FromRow` | practice.py:180-181 | a row read back as a book projects to the same row |
| `Persistence.RowsRoundTrip` | practice.py:180-181 | reading the rows back gives the books they were built from, position by position |
| `Persistence.BookTuplesInjective` | practice.py:180-181 | two book lists with the same rows are equal: the projection loses no field and no order |
| `Persistence.SaveToDatabase` | practice.py:160-193 | an empty list returns 0 without asking for a connection and sends nothing; a non-empty list asks for a connection; rows are sent exactly when the list is non-empty and a connection is available, and then they are `BookTuples` of the list, of the same length; when a batch is sent, the return value is the driver's row count, or 0 after a driver error; a non-zero return value only ever comes from a sent batch |

## Left out

- The module-level connection setup and `create_database_connection` / `create_database_and_table` (practice.py:12-75): database driver calls, DDL and environment loading. Their outcomes enter as the inputs `schemaReady` and `connectionOpen`.
- `fetch_webpage` (practice.py:78-94): an HTTP request. Each page's response is an input (`Pagination.Response`), and the page URL `page-{N}.html` is not built.
- HTML parsing and CSS selection (practice.py:104, 109, and the `select_one` calls): a fragment is given as the outcome of its lookups (`Extraction.Fragment`).
- `Persistence.SaveToDatabase`: `executemany`, `commit`, `rowcount` and the closing of the cursor and connection (practice.py:183-198) are the driver's. The count returned is passed through from the driver's reply; it is not proved to equal the number of rows. The module-level connection is closed at the end of `create_database_and_table` (practice.py:70), which the model cannot follow, because connection state is not modelled.
- `time.sleep` between pages (practice.py:240-243), all console output, and the first-three summary at the end of `main` (practice.py:248-264).
- The star-rating element is selected by its class, so the class list is in practice never empty. The model keeps the empty case because the code handles it, by raising on `[-1]`.
