/**
 * Link collection over a parsed document (`extract_links_from_pdf`):
 * pages are visited in order, and on each page every non-empty annotation
 * URI and every plain-text URL match is added to one set. The set is then
 * turned into a list whose order is left open.
 */
module LinkExtraction {
  import opened Wrappers
  import opened PdfModel
  import opened UrlPattern

  /** The test `if uri:`: an absent or empty URI is skipped. */
  predicate IsLinkUri(uri: Option<string>) {
    uri.Some? && uri.value != ""
  }

  /** The links a page's annotations contribute. */
  function AnnotationLinks(uris: seq<Option<string>>): set<string> {
    set j | 0 <= j < |uris| && IsLinkUri(uris[j]) :: uris[j].value
  }

  /** The links a page's text contributes. */
  function TextLinks(text: string): set<string> {
    set u | u in FindAll(text)
  }

  function PageLinks(page: Page): set<string> {
    AnnotationLinks(page.annotationUris) + TextLinks(page.text)
  }

  /** The accumulated link set after visiting the pages of doc in order. */
  function DocumentLinks(doc: Document): set<string> {
    if doc == [] then {} else DocumentLinks(doc[..|doc| - 1]) + PageLinks(doc[|doc| - 1])
  }

  predicate Distinct(s: seq<string>) {
    forall i, j :: 0 <= i < j < |s| ==> s[i] != s[j]
  }

  // ---------------------------------------------------------------------
  // The loops

  /** `list(links)`: the elements of a set, each once, in an order the
      model leaves open (each step takes any remaining element). */
  method ListOf(s: set<string>) returns (l: seq<string>)
    ensures Distinct(l)
    ensures forall u :: u in l <==> u in s
    ensures |l| == |s|
  {
    var rest := s;
    l := [];
    while rest != {}
      invariant Distinct(l)
      invariant forall u :: u in s <==> u in l || u in rest
      invariant forall u :: u in l ==> u !in rest
      invariant |l| + |rest| == |s|
      decreases |rest|
    {
      var x :| x in rest;
      l := l + [x];
      rest := rest - {x};
    }
  }

  /** `extract_links_from_pdf`: every non-empty annotation URI and every
      text match, from every page, each listed once. */
  method ExtractLinksFromPdf(doc: Document) returns (links: seq<string>)
    ensures forall u :: u in links <==> u in DocumentLinks(doc)
    ensures Distinct(links)
  {
    var found: set<string> := {};
    for p := 0 to |doc|
      invariant found == DocumentLinks(doc[..p])
    {
      found := AddAnnotationLinks(found, doc[p].annotationUris);
      found := AddTextLinks(found, doc[p].text);
      assert doc[..p + 1][..p] == doc[..p];
    }
    assert doc[..|doc|] == doc;
    links := ListOf(found);
  }

  /** The loop over a page's annotations: `links.add(uri)` for each URI
      that passes `if uri:`. */
  method AddAnnotationLinks(found: set<string>, uris: seq<Option<string>>) returns (r: set<string>)
    ensures r == found + AnnotationLinks(uris)
  {
    r := found;
    for a := 0 to |uris|
      invariant r == found + AnnotationLinks(uris[..a])
    {
      AnnotationLinksStep(uris, a);
      var uri := uris[a];
      if uri.Some? && uri.value != "" {
        r := r + {uri.value};
      }
    }
    assert uris[..|uris|] == uris;
  }

  /** The loop over a page's text matches: `links.add(url)` for each one. */
  method AddTextLinks(found: set<string>, text: string) returns (r: set<string>)
    ensures r == found + TextLinks(text)
  {
    var urls := FindAll(text);
    r := found;
    for t := 0 to |urls|
      invariant r == found + ElementsOf(urls, t)
    {
      ElementsOfStep(urls, t);
      r := r + {urls[t]};
    }
    assert ElementsOf(urls, |urls|) == TextLinks(text);
  }

  /** The elements of the first n entries of a list. */
  ghost function ElementsOf(urls: seq<string>, n: nat): set<string> {
    set k | 0 <= k < n && k < |urls| :: urls[k]
  }

  lemma ElementsOfStep(urls: seq<string>, t: nat)
    requires t < |urls|
    ensures ElementsOf(urls, t + 1) == ElementsOf(urls, t) + {urls[t]}
  {
  }

  /** One more annotation adds its URI when it passes `if uri:`. */
  lemma AnnotationLinksStep(uris: seq<Option<string>>, a: nat)
    requires a < |uris|
    ensures AnnotationLinks(uris[..a + 1]) ==
      AnnotationLinks(uris[..a]) + (if IsLinkUri(uris[a]) then {uris[a].value} else {})
  {
    var prefix := uris[..a + 1];
    assert forall j :: 0 <= j < a ==> prefix[j] == uris[..a][j];
    assert prefix[a] == uris[a];
  }

  // ---------------------------------------------------------------------
  // What the link set is

  /** A URL is a link of the document exactly when some page contributes it. */
  lemma {:induction false} DocumentLinksAreUnionOfPages(doc: Document, u: string)
    ensures u in DocumentLinks(doc) <==> exists i :: 0 <= i < |doc| && u in PageLinks(doc[i])
  {
    if doc != [] {
      var n := |doc| - 1;
      var init := doc[..n];
      DocumentLinksAreUnionOfPages(init, u);
      assert DocumentLinks(doc) == DocumentLinks(init) + PageLinks(doc[n]);
      assert forall i :: 0 <= i < n ==> init[i] == doc[i];
    }
  }

  /** A page contributes a URL exactly when one of its annotations carries it
      as a non-empty URI or the text scan finds it. */
  lemma PageLinksMembership(page: Page, u: string)
    ensures u in PageLinks(page) <==>
      || (u != "" && exists j :: 0 <= j < |page.annotationUris| && page.annotationUris[j] == Some(u))
      || u in FindAll(page.text)
  {
    if u != "" && exists j :: 0 <= j < |page.annotationUris| && page.annotationUris[j] == Some(u) {
      var j :| 0 <= j < |page.annotationUris| && page.annotationUris[j] == Some(u);
      assert IsLinkUri(page.annotationUris[j]);
    }
  }

  /** Every extracted link is a non-empty annotation URI of some page or a
      URL of the pattern's language. */
  lemma ExtractedLinksAreUrisOrUrls(doc: Document)
    ensures forall u :: u in DocumentLinks(doc) ==>
      (u != "" && exists i, j :: 0 <= i < |doc| && 0 <= j < |doc[i].annotationUris| && doc[i].annotationUris[j] == Some(u))
      || IsUrl(u)
  {
    forall u | u in DocumentLinks(doc)
      ensures (u != "" && exists i, j :: 0 <= i < |doc| && 0 <= j < |doc[i].annotationUris| && doc[i].annotationUris[j] == Some(u))
        || IsUrl(u)
    {
      DocumentLinksAreUnionOfPages(doc, u);
      var i :| 0 <= i < |doc| && u in PageLinks(doc[i]);
      PageLinksMembership(doc[i], u);
      FindAllAreUrls(doc[i].text);
    }
  }

  /** The link set is empty exactly when no page has a non-empty annotation
      URI and no page's text has a match. */
  lemma NoLinksIffNothingOnAnyPage(doc: Document)
    ensures DocumentLinks(doc) == {} <==>
      forall i :: 0 <= i < |doc| ==>
        FindAll(doc[i].text) == [] &&
        forall j :: 0 <= j < |doc[i].annotationUris| ==> !IsLinkUri(doc[i].annotationUris[j])
  {
    if DocumentLinks(doc) == {} {
      forall i | 0 <= i < |doc|
        ensures FindAll(doc[i].text) == []
        ensures forall j :: 0 <= j < |doc[i].annotationUris| ==> !IsLinkUri(doc[i].annotationUris[j])
      {
        if FindAll(doc[i].text) != [] {
          var u := FindAll(doc[i].text)[0];
          DocumentLinksAreUnionOfPages(doc, u);
        }
        forall j | 0 <= j < |doc[i].annotationUris| ensures !IsLinkUri(doc[i].annotationUris[j]) {
          if IsLinkUri(doc[i].annotationUris[j]) {
            var u := doc[i].annotationUris[j].value;
            DocumentLinksAreUnionOfPages(doc, u);
          }
        }
      }
    } else {
      var u :| u in DocumentLinks(doc);
      DocumentLinksAreUnionOfPages(doc, u);
      var i :| 0 <= i < |doc| && u in PageLinks(doc[i]);
      if u !in TextLinks(doc[i].text) {
        var j :| 0 <= j < |doc[i].annotationUris| && IsLinkUri(doc[i].annotationUris[j]) && doc[i].annotationUris[j].value == u;
      }
    }
  }

  /** A URL that occurs in a list without repetitions occurs exactly once;
      so a URL found both as an annotation and as text is listed once. */
  lemma {:induction false} DistinctListsEachOnce(links: seq<string>, u: string)
    requires Distinct(links)
    requires u in links
    ensures multiset(links)[u] == 1
  {
    var last := links[|links| - 1];
    var init := links[..|links| - 1];
    assert links == init + [last];
    if last == u {
      assert u !in init;
    } else {
      DistinctListsEachOnce(init, u);
    }
  }
}
