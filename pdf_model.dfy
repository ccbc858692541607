/**
 * The abstract view of a PDF that the pipeline needs: a sequence of pages,
 * each page carrying the URIs of its link annotations and its rendered text.
 * Parsing bytes into this view is done by a PDF library outside the model;
 * its outcome is a `Body`, which is either the parsed pages or `Malformed`.
 */
module PdfModel {
  import opened Wrappers

  /** One page: the `uri` entry of every link annotation (absent when the
      annotation has none) and the page's plain text. */
  datatype Page = Page(annotationUris: seq<Option<string>>, text: string)

  type Document = seq<Page>

  /** What a PDF parser makes of a byte stream. */
  datatype Body = Pdf(pages: Document) | Malformed
}
