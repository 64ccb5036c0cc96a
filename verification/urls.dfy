/**
 * Completion of the relative image and detail links found on a catalogue
 * page (`parse_books` in practice.py). The value comes from an attribute
 * lookup, so it may be absent (`None`).
 */
module Urls {
  import opened Wrappers

  /** Base prepended to relative image sources. */
  const SITE_ROOT: string := "http://books.toscrape.com/"
  /** Base prepended to relative detail links. */
  const CATALOGUE_ROOT: string := "http://books.toscrape.com/catalogue/"

  predicate StartsWith(s: string, prefix: string) {
    |prefix| <= |s| && s[..|prefix|] == prefix
  }

  predicate EndsWith(s: string, suffix: string) {
    |suffix| <= |s| && s[|s| - |suffix|..] == suffix
  }

  /** `parse_books`'s absolute-URL test (practice.py:121, 136): the value starts with "http". */
  predicate IsAbsolute(s: string) {
    StartsWith(s, "http")
  }

  /** Python's slice `s[n:]`: it never fails, and is empty when `s` is too short. */
  function DropPrefix(s: string, n: nat): (r: string)
    ensures |r| == if |s| <= n then 0 else |s| - n
    ensures forall i :: 0 <= i < |r| ==> r[i] == s[n + i]
  {
    if |s| <= n then "" else s[n..]
  }

  /**
   * Completes `raw` against `base`. An absent or empty value and a value that
   * already starts with "http" are kept; a value starting with ".." loses its
   * first THREE characters (the test looks at two); any other value is
   * appended to `base` whole.
   */
  function Complete(raw: Option<string>, base: string): (r: Option<string>)
    ensures r.None? <==> raw.None?
    ensures raw.None? || raw == Some("") || IsAbsolute(raw.value) ==> r == raw
    ensures raw.Some? && raw.value != "" && !IsAbsolute(raw.value) ==>
      StartsWith(r.value, base) &&
      (StartsWith(raw.value, "..") ==> r.value[|base|..] == DropPrefix(raw.value, 3)) &&
      (!StartsWith(raw.value, "..") ==> EndsWith(r.value, raw.value) && |r.value| == |base| + |raw.value|)
  {
    match raw
    case None => None
    case Some(s) =>
      if s == "" || IsAbsolute(s) then raw
      else if StartsWith(s, "..") then Some(base + DropPrefix(s, 3))
      else Some(base + s)
  }

  /** Completion of an image `src` (lines 120-126). */
  function CompleteImage(src: Option<string>): (r: Option<string>)
    ensures r.Some? && r != src ==> StartsWith(r.value, SITE_ROOT)
  {
    Complete(src, SITE_ROOT)
  }

  /** Completion of a title link's `href` (lines 135-141). */
  function CompleteDetail(href: Option<string>): (r: Option<string>)
    ensures r.Some? && r != href ==> StartsWith(r.value, CATALOGUE_ROOT)
  {
    Complete(href, CATALOGUE_ROOT)
  }

  lemma StartsWithTrans(s: string, p: string, q: string)
    requires StartsWith(s, p) && StartsWith(p, q)
    ensures StartsWith(s, q)
  {
    assert s[..|q|] == s[..|p|][..|q|];
  }

  /** A completed value is absolute whenever the base is, unless it was left empty or absent. */
  lemma CompleteMakesAbsolute(raw: Option<string>, base: string)
    requires IsAbsolute(base)
    ensures Complete(raw, base).Some? && Complete(raw, base) != Some("") ==> IsAbsolute(Complete(raw, base).value)
  {
    var r := Complete(raw, base);
    if r.Some? && r != Some("") && r != raw {
      StartsWithTrans(r.value, base, "http");
    }
  }

  /** Completing twice is completing once, for an absolute base. */
  lemma CompleteIdempotent(raw: Option<string>, base: string)
    requires IsAbsolute(base)
    ensures Complete(Complete(raw, base), base) == Complete(raw, base)
  {
    CompleteMakesAbsolute(raw, base);
  }

  /** Both bases are absolute, so both completions are idempotent. */
  lemma BasesAreAbsolute()
    ensures IsAbsolute(SITE_ROOT) && IsAbsolute(CATALOGUE_ROOT)
  {
    assert SITE_ROOT[..4] == "http";
    assert CATALOGUE_ROOT[..4] == "http";
  }

  /** Completing an image source twice is completing it once. */
  lemma ImageIdempotent(src: Option<string>)
    ensures CompleteImage(CompleteImage(src)) == CompleteImage(src)
  {
    BasesAreAbsolute();
    CompleteIdempotent(src, SITE_ROOT);
  }

  /** Completing a detail link twice is completing it once. */
  lemma DetailIdempotent(href: Option<string>)
    ensures CompleteDetail(CompleteDetail(href)) == CompleteDetail(href)
  {
    BasesAreAbsolute();
    CompleteIdempotent(href, CATALOGUE_ROOT);
  }

  /** "../x" becomes the site root followed by "x": the "../" is removed. */
  lemma ParentRelativeImage(tail: string)
    ensures CompleteImage(Some("../" + tail)) == Some(SITE_ROOT + tail)
  {
    var s := "../" + tail;
    assert s[..2] == "..";
    assert !IsAbsolute(s) by { assert s[0] == '.'; }
    assert DropPrefix(s, 3) == tail;
  }

  /**
   * The prefix test looks at two characters and the slice drops three, so a
   * value "..c" + tail loses the character c as well.
   */
  lemma MarkerTestedOnTwoDropsThree(c: char, tail: string)
    ensures CompleteDetail(Some(".." + [c] + tail)) == Some(CATALOGUE_ROOT + tail)
  {
    var s := ".." + [c] + tail;
    assert s[..2] == "..";
    assert !IsAbsolute(s) by { assert s[0] == '.'; }
    assert DropPrefix(s, 3) == tail;
  }
}
