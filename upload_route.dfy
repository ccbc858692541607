/**
 * The decision logic of the upload route (`upload_pdf`): extract the links,
 * answer "no_links" when there are none, fetch them, answer
 * "download_failed" when nothing was retained, and otherwise merge the
 * retained PDFs and answer "success" with the extracted list.
 *
 * An exception that escapes the route (the upload or a retained download
 * cannot be read as a PDF) becomes the framework's internal-error reply.
 */
module UploadRoute {
  import opened Wrappers
  import opened PdfModel
  import opened LinkExtraction
  import opened Fetching
  import opened Merging

  /** The reply of the route. */
  datatype Reply =
    | NoLinks
    | DownloadFailed
    | Succeeded(mergedPdfUrl: string, merged: Document, extractedLinks: seq<string>)
    | InternalError
  {
    /** The HTTP status code sent with the reply. */
    function Code(): int {
      match this
      case NoLinks => 200
      case DownloadFailed => 400
      case Succeeded(_, _, _) => 200
      case InternalError => 500
    }

    /** The "status" field of the JSON body ("" when there is no JSON body). */
    function Status(): string {
      match this
      case NoLinks => "no_links"
      case DownloadFailed => "download_failed"
      case Succeeded(_, _, _) => "success"
      case InternalError => ""
    }

    /** The "message" field of the JSON body ("" when there is none). */
    function Message(): string {
      match this
      case NoLinks => "No links found"
      case DownloadFailed => "No valid PDFs"
      case _ => ""
    }
  }

  /** The file name given to the merged output, from a fresh identifier. */
  function MergedFileName(id: string): string {
    "merged_" + id + ".pdf"
  }

  /** The branch of `upload_pdf` from the extracted list on: each stage is
      consulted only when the previous one left something to do. */
  function Route(links: seq<string>, fetch: string -> Outcome, mergedId: string): Reply {
    if links == [] then NoLinks
    else
      var downloaded := Kept(links, fetch);
      if downloaded == [] then DownloadFailed
      else
        match MergeSpec(downloaded)
        case Success(pages) => Succeeded("/download/" + MergedFileName(mergedId), pages, links)
        case Failure(_) => InternalError
  }

  /** What the route observably did besides replying: the list handed to the
      fetch stage and the list handed to the merge stage, if they were reached. */
  datatype Trace = Trace(fetchInput: Option<seq<string>>, mergeInput: Option<seq<Asset>>)

  /** `upload_pdf` on an upload the PDF library reads as `upload`, with the
      network given by `fetch` and `mergedId` standing for the fresh name. */
  method UploadPdf(upload: Body, fetch: string -> Outcome, mergedId: string)
    returns (reply: Reply, links: seq<string>, trace: Trace)
    ensures upload.Malformed? ==> reply == InternalError && links == [] && trace == Trace(None, None)
    ensures upload.Pdf? ==>
      && (forall u :: u in links <==> u in DocumentLinks(upload.pages))
      && Distinct(links)
      && reply == Route(links, fetch, mergedId)
    ensures trace.fetchInput == if upload.Pdf? && links != [] then Some(links) else None
    ensures trace.mergeInput ==
      if trace.fetchInput.Some? && Kept(links, fetch) != [] then Some(Kept(links, fetch)) else None
  {
    match upload
    case Malformed =>
      reply, links, trace := InternalError, [], Trace(None, None);
    case Pdf(doc) =>
      var extracted := ExtractLinksFromPdf(doc);
      links := extracted;
      if extracted == [] {
        reply, trace := NoLinks, Trace(None, None);
        return;
      }
      var downloaded := DownloadPdfs(extracted, fetch);
      if downloaded == [] {
        reply, trace := DownloadFailed, Trace(Some(extracted), None);
        return;
      }
      trace := Trace(Some(extracted), Some(downloaded));
      var merged := MergePdfs(downloaded);
      match merged
      case Success(pages) =>
        reply := Succeeded("/download/" + MergedFileName(mergedId), pages, extracted);
      case Failure(_) =>
        reply := InternalError;
  }

  // ---------------------------------------------------------------------
  // The outcomes of the route

  /** No links: "no_links" with code 200, whatever the network would do. */
  lemma RouteNoLinks(links: seq<string>, fetch: string -> Outcome, other: string -> Outcome, mergedId: string)
    ensures Route(links, fetch, mergedId).NoLinks? <==> links == []
    ensures links == [] ==>
      && Route(links, fetch, mergedId) == Route(links, other, mergedId)
      && Route(links, fetch, mergedId).Code() == 200
      && Route(links, fetch, mergedId).Status() == "no_links"
  {
  }

  /** "download_failed" with code 400 exactly when there are links and none
      passes the retention rule. */
  lemma RouteDownloadFailed(links: seq<string>, fetch: string -> Outcome, mergedId: string)
    ensures Route(links, fetch, mergedId).DownloadFailed? <==>
      links != [] && forall i :: 0 <= i < |links| ==> !IsRetained(fetch(links[i]))
    ensures Route(links, fetch, mergedId).DownloadFailed? ==> Route(links, fetch, mergedId).Code() == 400
  {
    KeptEmptyIff(links, fetch);
  }

  /** The retained downloads are all readable exactly when no retained
      link's body is malformed. */
  lemma KeptAllWellFormedIff(links: seq<string>, fetch: string -> Outcome)
    ensures AllWellFormed(Kept(links, fetch)) <==>
      forall i :: 0 <= i < |links| && IsRetained(fetch(links[i])) ==> fetch(links[i]).body.Pdf?
  {
    KeptIsOrderedSelection(links, fetch);
    var kept, idx := Kept(links, fetch), KeptIndices(links, fetch);
    if AllWellFormed(kept) {
      forall i | 0 <= i < |links| && IsRetained(fetch(links[i])) ensures fetch(links[i]).body.Pdf? {
        var k :| 0 <= k < |idx| && idx[k] == i;
        assert kept[k].body.Pdf?;
      }
    }
  }

  /** The route ends in an internal error exactly when some retained link's
      body cannot be read as a PDF. */
  lemma RouteMergeAborts(links: seq<string>, fetch: string -> Outcome, mergedId: string)
    ensures Route(links, fetch, mergedId).InternalError? <==>
      exists i :: 0 <= i < |links| && IsRetained(fetch(links[i])) && fetch(links[i]).body.Malformed?
    ensures Route(links, fetch, mergedId).InternalError? ==> Route(links, fetch, mergedId).Code() == 500
  {
    KeptEmptyIff(links, fetch);
    KeptAllWellFormedIff(links, fetch);
  }

  /** On success the reply carries exactly the extracted list, a download
      location under the fresh name, and the pages of the retained PDFs
      concatenated in the order of the list; the merge stage received a
      non-empty list. */
  lemma RouteSuccess(links: seq<string>, fetch: string -> Outcome, mergedId: string)
    ensures Route(links, fetch, mergedId).Succeeded? <==>
      && (exists i :: 0 <= i < |links| && IsRetained(fetch(links[i])))
      && (forall i :: 0 <= i < |links| && IsRetained(fetch(links[i])) ==> fetch(links[i]).body.Pdf?)
    ensures Route(links, fetch, mergedId).Succeeded? ==>
      var r := Route(links, fetch, mergedId);
      && r.Code() == 200 && r.Status() == "success"
      && r.extractedLinks == links
      && r.mergedPdfUrl == "/download/merged_" + mergedId + ".pdf"
      && |Kept(links, fetch)| > 0
      && r.merged == MergedPages(Kept(links, fetch))
  {
    var kept := Kept(links, fetch);
    KeptEmptyIff(links, fetch);
    KeptAllWellFormedIff(links, fetch);
    assert links == [] ==> kept == [];
    assert Route(links, fetch, mergedId).Succeeded? <==> kept != [] && AllWellFormed(kept);
    if kept != [] && AllWellFormed(kept) {
      assert Route(links, fetch, mergedId) == Succeeded("/download/" + MergedFileName(mergedId), MergedPages(kept), links);
      DownloadLocation(mergedId);
    }
  }

  /** The download location of the merged file written out in full. */
  lemma DownloadLocation(id: string)
    ensures "/download/" + MergedFileName(id) == "/download/merged_" + id + ".pdf"
  {
    assert "/download/merged_" == "/download/" + "merged_";
    ConcatAssoc("/download/", "merged_" + id, ".pdf");
    ConcatAssoc("/download/", "merged_", id);
  }

  lemma ConcatAssoc(a: string, b: string, c: string)
    ensures a + (b + c) == (a + b) + c
  {
  }

  /** Two extracted links, one answering a two-page PDF and one answering
      404: the route succeeds with a two-page merge and both links. */
  lemma RouteOnePdfOneNotFound(
    links: seq<string>, fetch: string -> Outcome, mergedId: string,
    good: string, bad: string, p1: Page, p2: Page, ct: Option<string>, junk: Body)
    requires good != bad
    requires links == [good, bad] || links == [bad, good]
    requires fetch(good) == Response(200, Some(PdfMimeType), Pdf([p1, p2]))
    requires fetch(bad) == Response(404, ct, junk)
    ensures Route(links, fetch, mergedId).Succeeded?
    ensures Route(links, fetch, mergedId).merged == [p1, p2]
    ensures Route(links, fetch, mergedId).extractedLinks == links
  {
    var asset := Asset(good, Pdf([p1, p2]));
    RetainedPdf([p1, p2]);
    KeptOfPair(links, fetch, good, bad);
    MergeSpecSingle(asset);
  }

  /** Exactly the retained one of two distinct links is kept. */
  lemma KeptOfPair(links: seq<string>, fetch: string -> Outcome, good: string, bad: string)
    requires links == [good, bad] || links == [bad, good]
    requires IsRetained(fetch(good)) && !IsRetained(fetch(bad))
    ensures Kept(links, fetch) == [Asset(good, fetch(good).body)]
  {
    assert Kept([good], fetch) == [Asset(good, fetch(good).body)] by {
      assert [good][..0] == [];
    }
    assert Kept([bad], fetch) == [] by {
      assert [bad][..0] == [];
    }
    assert links[..1] == [links[0]];
  }

  /** A 200 response declaring `application/pdf` is retained. */
  lemma RetainedPdf(pages: Document)
    ensures IsRetained(Response(200, Some(PdfMimeType), Pdf(pages)))
  {
    assert PdfMimeType[..|PdfMimeType|] == PdfMimeType;
  }

  /** Merging one readable asset gives its pages. */
  lemma MergeSpecSingle(asset: Asset)
    requires asset.body.Pdf?
    ensures MergeSpec([asset]) == Success(asset.body.pages)
  {
    assert [asset][..0] == [];
    assert MergedPages([asset]) == [] + asset.body.pages == asset.body.pages;
    assert AllWellFormed([asset]);
    assert MergeSpec([asset]) == Success(MergedPages([asset]));
  }
}
