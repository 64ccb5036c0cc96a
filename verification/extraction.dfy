/**
 * `parse_books` in practice.py: each `article.product_pod` fragment of a page
 * is turned into a book record, and a fragment whose lookups raise is
 * skipped. The HTML parser and its CSS selection are not modelled: a
 * fragment is given as the result of its four `select_one` lookups.
 */
module Extraction {
  import opened Wrappers
  import Urls

  /** The `h3 a` element: its `title` and `href` attributes, each possibly missing. */
  datatype TitleLink = TitleLink(title: Option<string>, href: Option<string>)
  /** The `img` element and its `src` attribute. */
  datatype Image = Image(src: Option<string>)
  /** The `p.star-rating` element and the tokens of its `class` attribute. */
  datatype StarRating = StarRating(classes: seq<string>)

  /** One book fragment; `None` is a `select_one` that matched nothing. */
  datatype Fragment = Fragment(
    link: Option<TitleLink>,
    img: Option<Image>,
    price: Option<string>,
    rating: Option<StarRating>)

  /** The record appended for a fragment; the title may be `None`. */
  datatype Book = Book(
    title: Option<string>,
    imageUrl: Option<string>,
    price: string,
    rating: string,
    detailUrl: Option<string>)

  /** What a fragment's extraction raises: an attribute read on `None`, or `[-1]` on an empty list. */
  datatype Fault = NoMatch(selector: string) | EmptyClassList

  /** All four elements are present and the rating's class list is non-empty. */
  predicate Extractable(f: Fragment) {
    f.link.Some? && f.img.Some? && f.price.Some? && f.rating.Some? &&
    |f.rating.value.classes| > 0
  }

  /**
   * The body of the `try` block for one fragment, step by step in the order
   * `parse_books` performs its lookups (practice.py:117-135); the first lookup that raises decides
   * the fault.
   */
  function TryExtract(f: Fragment): (r: Result<Book, Fault>)
    ensures r.Ok? <==> Extractable(f)
    ensures r.Ok? ==>
      r.value.title == f.link.value.title &&
      r.value.detailUrl == Urls.CompleteDetail(f.link.value.href) &&
      r.value.imageUrl == Urls.CompleteImage(f.img.value.src) &&
      r.value.price == f.price.value &&
      r.value.rating == f.rating.value.classes[|f.rating.value.classes| - 1]
    ensures f.link.None? ==> r == Err(NoMatch("h3 a"))
    ensures f.link.Some? && f.img.None? ==> r == Err(NoMatch("img"))
  {
    if f.link.None? then Err(NoMatch("h3 a"))
    else
      var title := f.link.value.title;
      if f.img.None? then Err(NoMatch("img"))
      else
        var imageUrl := Urls.CompleteImage(f.img.value.src);
        if f.price.None? then Err(NoMatch("p.price_color"))
        else
          var price := f.price.value;
          if f.rating.None? then Err(NoMatch("p.star-rating"))
          else
            var classes := f.rating.value.classes;
            if |classes| == 0 then Err(EmptyClassList)
            else
              var rating := classes[|classes| - 1];
              var detailUrl := Urls.CompleteDetail(f.link.value.href);
              Ok(Book(title, imageUrl, price, rating, detailUrl))
  }

  /** The records a single fragment contributes: one, or none when it raises. */
  function Emit(f: Fragment): (r: seq<Book>)
    ensures |r| == if Extractable(f) then 1 else 0
  {
    match TryExtract(f)
    case Ok(b) => [b]
    case Err(_) => []
  }

  /** Specification of the extraction loop: the records of all fragments, in document order. */
  function ExtractAll(pods: seq<Fragment>): (r: seq<Book>)
    ensures |r| <= |pods|
  {
    if pods == [] then [] else Emit(pods[0]) + ExtractAll(pods[1..])
  }

  /** The fragments that yield a record, in document order. */
  function Keep(pods: seq<Fragment>): (r: seq<Fragment>)
    ensures |r| <= |pods|
    ensures forall i :: 0 <= i < |r| ==> Extractable(r[i]) && r[i] in pods
    ensures forall j :: 0 <= j < |pods| && Extractable(pods[j]) ==> pods[j] in r
  {
    if pods == [] then []
    else if Extractable(pods[0]) then [pods[0]] + Keep(pods[1..])
    else Keep(pods[1..])
  }

  /** Extraction distributes over concatenation of fragment lists. */
  lemma {:induction false} ExtractAllAppend(a: seq<Fragment>, b: seq<Fragment>)
    ensures ExtractAll(a + b) == ExtractAll(a) + ExtractAll(b)
  {
    if a == [] {
      assert a + b == b;
    } else {
      assert (a + b)[1..] == a[1..] + b;
      ExtractAllAppend(a[1..], b);
    }
  }

  /** A fragment that raises drops out and leaves its siblings' records untouched. */
  lemma FaultySiblingIsSkipped(before: seq<Fragment>, f: Fragment, after: seq<Fragment>)
    requires !Extractable(f)
    ensures ExtractAll(before + [f] + after) == ExtractAll(before) + ExtractAll(after)
  {
    assert Emit(f) == [];
    assert ExtractAll([f]) == [] by {
      assert [f][1..] == [];
      assert ExtractAll([f]) == Emit(f) + ExtractAll([]);
    }
    ExtractAllAppend(before, [f]);
    ExtractAllAppend(before + [f], after);
  }

  /**
   * The output is the in-order image of exactly the extractable fragments:
   * the i-th record comes from the i-th extractable fragment.
   */
  lemma {:induction false} ExtractAllIsImageOfKeep(pods: seq<Fragment>)
    ensures |ExtractAll(pods)| == |Keep(pods)|
    ensures forall i :: 0 <= i < |Keep(pods)| ==> ExtractAll(pods)[i] == TryExtract(Keep(pods)[i]).value
  {
    if pods != [] {
      var f, tail := pods[0], pods[1..];
      ExtractAllIsImageOfKeep(tail);
      assert ExtractAll(pods) == Emit(f) + ExtractAll(tail);
      if Extractable(f) {
        assert Keep(pods) == [f] + Keep(tail);
        assert Emit(f) == [TryExtract(f).value];
      } else {
        assert Keep(pods) == Keep(tail);
        assert Emit(f) == [];
      }
    }
  }

  /** A page yields no record exactly when none of its fragments is extractable. */
  lemma {:induction false} ExtractAllEmptyIff(pods: seq<Fragment>)
    ensures ExtractAll(pods) == [] <==> forall i :: 0 <= i < |pods| ==> !Extractable(pods[i])
  {
    if pods != [] {
      ExtractAllEmptyIff(pods[1..]);
      assert forall i :: 1 <= i < |pods| ==> pods[i] == pods[1..][i - 1];
    }
  }

  /** A title link without a `title` attribute still yields a record, whose title is `None`. */
  lemma TitleMayBeNone(href: Option<string>, src: Option<string>, price: string, classes: seq<string>)
    requires |classes| > 0
    ensures var f := Fragment(Some(TitleLink(None, href)), Some(Image(src)), Some(price), Some(StarRating(classes)));
      ExtractAll([f]) == [TryExtract(f).value] && ExtractAll([f])[0].title == None
  {
    var f := Fragment(Some(TitleLink(None, href)), Some(Image(src)), Some(price), Some(StarRating(classes)));
    assert [f][1..] == [];
  }

  /**
   * `parse_books`: empty or absent content gives no records; otherwise the
   * fragments are visited in order and each one that does not raise appends
   * its record. `pods` is what the selector finds in `html`.
   */
  method ParseBooks(html: Option<string>, pods: seq<Fragment>) returns (books: seq<Book>)
    ensures html.None? || html == Some("") ==> books == []
    ensures html.Some? && html.value != "" ==> books == ExtractAll(pods)
  {
    books := [];
    if html.None? || html.value == "" {
      return;
    }
    for i := 0 to |pods|
      invariant books == ExtractAll(pods[..i])
    {
      var attempt := TryExtract(pods[i]);
      if attempt.Ok? {
        books := books + [attempt.value];
      }
      // an Err is swallowed and the next fragment is tried
      assert pods[..i + 1] == pods[..i] + [pods[i]];
      ExtractAllAppend(pods[..i], [pods[i]]);
      assert [pods[i]][1..] == [];
    }
    assert pods[..|pods|] == pods;
  }
}
