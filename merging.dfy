/**
 * The merge (`merge_pdfs`): the retained downloads are appended one after
 * the other to a merger, so the output's pages are the inputs' pages in
 * list order. Appending a body the PDF library cannot read raises, which
 * aborts the whole merge at that asset.
 */
module Merging {
  import opened Wrappers
  import opened PdfModel
  import opened Fetching

  /** The merge stopped at the asset with this index. */
  datatype MergeError = MalformedAsset(index: nat)

  predicate AllWellFormed(assets: seq<Asset>) {
    forall k :: 0 <= k < |assets| ==> assets[k].body.Pdf?
  }

  /** The pages of the readable assets, one asset after the other. */
  function MergedPages(assets: seq<Asset>): Document {
    if assets == [] then []
    else
      var last := assets[|assets| - 1];
      MergedPages(assets[..|assets| - 1]) + (if last.body.Pdf? then last.body.pages else [])
  }

  /** The index of the first unreadable asset. */
  function FirstMalformed(assets: seq<Asset>): (k: nat)
    requires !AllWellFormed(assets)
    ensures k < |assets| && assets[k].body.Malformed?
    ensures forall j :: 0 <= j < k ==> assets[j].body.Pdf?
  {
    if assets[0].body.Malformed? then 0 else 1 + FirstMalformed(assets[1..])
  }

  /** What `merge_pdfs` produces: the concatenated pages, or the error of
      the first asset that cannot be appended. */
  function MergeSpec(assets: seq<Asset>): Result<Document, MergeError> {
    if AllWellFormed(assets) then Success(MergedPages(assets))
    else Failure(MalformedAsset(FirstMalformed(assets)))
  }

  /** `merge_pdfs`: append each asset in order; the first unreadable one aborts. */
  method MergePdfs(assets: seq<Asset>) returns (r: Result<Document, MergeError>)
    ensures r == MergeSpec(assets)
  {
    var pages: Document := [];
    for k := 0 to |assets|
      invariant forall j :: 0 <= j < k ==> assets[j].body.Pdf?
      invariant pages == MergedPages(assets[..k])
    {
      assert assets[..k + 1][..k] == assets[..k];
      match assets[k].body
      case Malformed =>
        return Failure(MalformedAsset(k));
      case Pdf(p) =>
        pages := pages + p;
    }
    assert assets[..|assets|] == assets;
    return Success(pages);
  }

  // ---------------------------------------------------------------------
  // Properties of the merge

  /** Merging two lists is merging each and concatenating the results. */
  lemma {:induction false} MergedPagesAppend(xs: seq<Asset>, ys: seq<Asset>)
    ensures MergedPages(xs + ys) == MergedPages(xs) + MergedPages(ys)
    decreases |ys|
  {
    if ys != [] {
      var init := ys[..|ys| - 1];
      MergedPagesAppend(xs, init);
      assert (xs + ys)[..|xs + ys| - 1] == xs + init;
    } else {
      assert xs + ys == xs;
    }
  }

  /** Input order is kept: the merged pages are those of the assets before k,
      then asset k's own pages, then those of the assets after it. */
  lemma MergedPagesInOrder(assets: seq<Asset>, k: nat)
    requires k < |assets|
    requires assets[k].body.Pdf?
    ensures MergedPages(assets) ==
      MergedPages(assets[..k]) + assets[k].body.pages + MergedPages(assets[k + 1..])
  {
    assert assets == assets[..k] + [assets[k]] + assets[k + 1..];
    MergedPagesAppend(assets[..k] + [assets[k]], assets[k + 1..]);
    MergedPagesAppend(assets[..k], [assets[k]]);
    assert MergedPages([assets[k]]) == assets[k].body.pages by {
      assert [assets[k]][..0] == [];
    }
  }

  /** The merged document has as many pages as the inputs together. */
  lemma {:induction false} MergedPagesCount(assets: seq<Asset>)
    requires AllWellFormed(assets)
    ensures |MergedPages(assets)| == PageTotal(assets)
  {
    if assets != [] {
      MergedPagesCount(assets[..|assets| - 1]);
    }
  }

  function PageTotal(assets: seq<Asset>): nat
    requires AllWellFormed(assets)
  {
    if assets == [] then 0 else PageTotal(assets[..|assets| - 1]) + |assets[|assets| - 1].body.pages|
  }

  /** The merge aborts exactly when some asset is unreadable, and then names
      the first one. */
  lemma MergeFailsIffMalformed(assets: seq<Asset>)
    ensures MergeSpec(assets).Failure? <==> exists k :: 0 <= k < |assets| && assets[k].body.Malformed?
    ensures MergeSpec(assets).Failure? ==>
      var k := MergeSpec(assets).error.index;
      k < |assets| && assets[k].body.Malformed? &&
      forall j :: 0 <= j < k ==> assets[j].body.Pdf?
  {
  }

  /** Two assets of two pages and one page merge into three pages, the first
      asset's pages first. */
  lemma MergeTwoThenOne(a: Asset, b: Asset, p1: Page, p2: Page, q: Page)
    requires a.body == Pdf([p1, p2]) && b.body == Pdf([q])
    ensures MergeSpec([a, b]) == Success([p1, p2, q])
  {
    var both := [a, b];
    assert both[..1] == [a];
    assert [a][..0] == [];
    assert MergedPages([a]) == [p1, p2];
    assert MergedPages(both) == [p1, p2] + [q];
    assert AllWellFormed(both);
    assert MergeSpec(both) == Success(MergedPages(both));
    assert [p1, p2] + [q] == [p1, p2, q];
    assert MergeSpec(both) == Success([p1, p2, q]);
  }
}
