/**
 * What the pages the server produces contain, with the HTML template text left
 * out: the links, rows and messages each page carries.
 */
module Pages {
  import opened Wrappers
  import opened FileSystem
  import opened SizeFormat

  /**
   * A link on a listing or error page. Each is written with the path `quote`d
   * and is decoded by `unquote` when the browser sends it back, so a link is
   * named here by the decoded request path it leads to. The file view's
   * Download button is not one of these: its href is written unquoted and is
   * kept as the raw string `downloadPath`.
   */
  datatype Href =
    | Root
    | Browse(rel: string)
    | View(rel: string)
    | Download(rel: string)
    | DownloadAll(rel: string)

  /** The request path, after decoding, that following the link produces. */
  function RequestPath(h: Href): string
  {
    match h
    case Root => "/"
    case Browse(rel) => "/browse/" + rel
    case View(rel) => "/view/" + rel
    case Download(rel) => "/download/" + rel
    case DownloadAll(rel) => "/download-all/" + rel
  }

  /** One link of the breadcrumb trail. */
  datatype Crumb = Crumb(text: string, target: Href)

  /** The plain text "Home" at the root, otherwise linked crumbs joined by " / ". */
  datatype Breadcrumb = HomeOnly | Trail(crumbs: seq<Crumb>)

  /** One row of the listing table. */
  datatype Row =
    | ParentRow(target: Href)
    | DirRow(name: string, target: Href, mtime: int)
    | FileRow(name: string, target: Href, size: SizeLabel, mtime: int, download: Href)

  /** What the file view shows in its content box. */
  datatype Content =
    | Code(escaped: string)          // decoded text, HTML-escaped, in a <pre> block
    | CannotDisplay                  // "Cannot display file"
    | Image(mime: string, data: Bytes)  // a base64 data URI of the raw bytes
    | PdfNotice                      // "PDF - Please download"
    | BinaryNotice                   // "Binary file - Please download"

  datatype Page =
    | Listing(title: string, breadcrumb: Breadcrumb, zipLink: Option<Href>, rows: seq<Row>)
    | FileView(title: string, downloadPath: string, content: Content)  // downloadPath: the raw href
    | ErrorPage(message: string, back: Href)

  /** `generate_error`: the page that shows `message` under "Error: " with a "Go back" link to "/". */
  function GenerateError(message: string): (p: Page)
    ensures p.ErrorPage? && p.message == message && p.back == Root
  {
    ErrorPage(message, Root)
  }
}
