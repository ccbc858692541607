/**
 * The selective fetch (`download_pdfs`): each link is requested once, in
 * list order; a response is kept only when its status is exactly 200 and its
 * Content-Type header, read as "" when missing, starts with
 * "application/pdf". Any exception is swallowed and the loop moves on.
 *
 * The HTTP client is a parameter: `fetch(url)` is the outcome of the one
 * request made for url.
 */
module Fetching {
  import opened Wrappers
  import opened PdfModel
  import opened UrlPattern

  /** The outcome of `requests.get(url, timeout=10)`: it raised, or it gave a
      response with a status, the Content-Type header if present, and the
      body as the PDF library would read it. */
  datatype Outcome =
    | Raised
    | Response(status: int, contentType: Option<string>, body: Body)

  /** A retained download: the URL and the body saved for it. */
  datatype Asset = Asset(url: string, body: Body)

  const PdfMimeType: string := "application/pdf"

  /** `r.headers.get("Content-Type", "")`. */
  function HeaderOrEmpty(contentType: Option<string>): string {
    match contentType
    case Some(v) => v
    case None => ""
  }

  /** The retention rule of `download_pdfs`. */
  predicate IsRetained(o: Outcome) {
    o.Response? && o.status == 200 && StartsWith(HeaderOrEmpty(o.contentType), PdfMimeType)
  }

  /** The assets kept from links, in link order. */
  function Kept(links: seq<string>, fetch: string -> Outcome): seq<Asset> {
    if links == [] then []
    else
      var url := links[|links| - 1];
      var o := fetch(url);
      Kept(links[..|links| - 1], fetch) + (if IsRetained(o) then [Asset(url, o.body)] else [])
  }

  /** The positions of the retained links, in increasing order. */
  function KeptIndices(links: seq<string>, fetch: string -> Outcome): seq<nat> {
    if links == [] then []
    else
      var i := |links| - 1;
      KeptIndices(links[..i], fetch) + (if IsRetained(fetch(links[i])) then [i] else [])
  }

  /** `download_pdfs`: request every link in order, keep what passes the
      retention rule, skip the rest. */
  method DownloadPdfs(links: seq<string>, fetch: string -> Outcome) returns (assets: seq<Asset>)
    ensures assets == Kept(links, fetch)
  {
    assets := [];
    for i := 0 to |links|
      invariant assets == Kept(links[..i], fetch)
    {
      var url := links[i];
      var r := fetch(url);
      assert links[..i + 1][..i] == links[..i];
      if r.Raised? {
        // the exception is caught and logged; the loop continues
      } else if r.status == 200 && StartsWith(HeaderOrEmpty(r.contentType), PdfMimeType) {
        assets := assets + [Asset(url, r.body)];
      }
    }
    assert links[..|links|] == links;
  }

  // ---------------------------------------------------------------------
  // Properties of the retained list

  /** The retained positions are in range and strictly increasing. */
  lemma {:induction false} KeptIndicesIncrease(links: seq<string>, fetch: string -> Outcome)
    ensures forall k :: 0 <= k < |KeptIndices(links, fetch)| ==> KeptIndices(links, fetch)[k] < |links|
    ensures forall a, b :: 0 <= a < b < |KeptIndices(links, fetch)| ==>
      KeptIndices(links, fetch)[a] < KeptIndices(links, fetch)[b]
  {
    if links != [] {
      KeptIndicesIncrease(links[..|links| - 1], fetch);
    }
  }

  /** The k-th retained asset belongs to the k-th retained position. */
  lemma {:induction false} KeptAtIndices(links: seq<string>, fetch: string -> Outcome)
    ensures |Kept(links, fetch)| == |KeptIndices(links, fetch)|
    ensures forall k :: 0 <= k < |KeptIndices(links, fetch)| ==>
      var i := KeptIndices(links, fetch)[k];
      i < |links| && IsRetained(fetch(links[i])) &&
      Kept(links, fetch)[k] == Asset(links[i], fetch(links[i]).body)
  {
    if links != [] {
      var n := |links| - 1;
      var init := links[..n];
      KeptAtIndices(init, fetch);
      KeptIndicesIncrease(init, fetch);
      var idx, kept := KeptIndices(init, fetch), Kept(init, fetch);
      forall k | 0 <= k < |idx| ensures idx[k] < |links| && links[idx[k]] == init[idx[k]] {
      }
    }
  }

  /** Every retained position is listed. */
  lemma {:induction false} KeptIndicesComplete(links: seq<string>, fetch: string -> Outcome)
    ensures forall i :: 0 <= i < |links| && IsRetained(fetch(links[i])) ==> i in KeptIndices(links, fetch)
  {
    if links != [] {
      var n := |links| - 1;
      var init := links[..n];
      KeptIndicesComplete(init, fetch);
      assert forall i :: 0 <= i < n ==> init[i] == links[i];
    }
  }

  /** The retained list is the retained links in input order, each with the
      body of its response: its indices increase strictly, and an index is
      among them exactly when its link passes the retention rule. */
  lemma KeptIsOrderedSelection(links: seq<string>, fetch: string -> Outcome)
    ensures |Kept(links, fetch)| == |KeptIndices(links, fetch)|
    ensures forall a, b :: 0 <= a < b < |KeptIndices(links, fetch)| ==>
      KeptIndices(links, fetch)[a] < KeptIndices(links, fetch)[b]
    ensures forall k :: 0 <= k < |KeptIndices(links, fetch)| ==>
      var i := KeptIndices(links, fetch)[k];
      i < |links| && IsRetained(fetch(links[i])) &&
      Kept(links, fetch)[k] == Asset(links[i], fetch(links[i]).body)
    ensures forall i :: 0 <= i < |links| ==> (IsRetained(fetch(links[i])) <==> i in KeptIndices(links, fetch))
  {
    KeptIndicesIncrease(links, fetch);
    KeptAtIndices(links, fetch);
    KeptIndicesComplete(links, fetch);
  }

  /** At most one asset per link. */
  lemma {:induction false} KeptNoLonger(links: seq<string>, fetch: string -> Outcome)
    ensures |Kept(links, fetch)| <= |links|
  {
    if links != [] {
      KeptNoLonger(links[..|links| - 1], fetch);
    }
  }

  /** A URL has a retained asset exactly when it is one of the links and its
      request passed the retention rule. */
  lemma KeptMembership(links: seq<string>, fetch: string -> Outcome, url: string)
    ensures (exists k :: 0 <= k < |Kept(links, fetch)| && Kept(links, fetch)[k].url == url) <==>
      url in links && IsRetained(fetch(url))
  {
    KeptIsOrderedSelection(links, fetch);
    var kept, idx := Kept(links, fetch), KeptIndices(links, fetch);
    if url in links && IsRetained(fetch(url)) {
      var i :| 0 <= i < |links| && links[i] == url;
      var k :| 0 <= k < |idx| && idx[k] == i;
      assert kept[k].url == url;
    }
  }

  /** Nothing is retained exactly when no link passes the retention rule. */
  lemma KeptEmptyIff(links: seq<string>, fetch: string -> Outcome)
    ensures Kept(links, fetch) == [] <==> forall i :: 0 <= i < |links| ==> !IsRetained(fetch(links[i]))
  {
    KeptIsOrderedSelection(links, fetch);
    if exists i :: 0 <= i < |links| && IsRetained(fetch(links[i])) {
      var i :| 0 <= i < |links| && IsRetained(fetch(links[i]));
      assert i in KeptIndices(links, fetch);
    }
  }

  /** The rule asks for exactly 200: a 2xx status other than 200 is skipped,
      and so is a missing Content-Type header or an HTML one. */
  lemma RetentionIsStrict(body: Body)
    ensures !IsRetained(Response(204, Some(PdfMimeType), body))
    ensures !IsRetained(Response(200, None, body))
    ensures !IsRetained(Response(200, Some("text/html"), body))
    ensures !IsRetained(Raised)
    ensures IsRetained(Response(200, Some("application/pdf; charset=binary"), body))
  {
    assert "text/html"[0] != PdfMimeType[0];
    assert "application/pdf; charset=binary"[..|PdfMimeType|] == PdfMimeType;
  }
}
