/**
 * `FileServerHandler.do_GET` (server.py:268-348): the request path is decoded,
 * matched against the route prefixes in order, resolved against BASE_DIR and
 * checked for containment, and answered with a page, a file, an archive or an
 * error status.
 */
module Router {
  import opened Wrappers
  import opened Seqs
  import opened PyStr
  import opened PosixPath
  import opened Config
  import opened FileSystem
  import opened Pages
  import opened Listing
  import opened FileView
  import opened Archive

  /** `unquote(self.path.split('?', 1)[0])`: the query is dropped before the path is decoded. */
  function RequestPathOf(unquote: string -> string, raw: string): string
  {
    unquote(Split(raw, '?')[0])
  }

  /** `os.path.normpath(os.path.join(BASE_DIR, rel))` */
  function Resolve(cfg: Config, rel: string): string
  {
    NormPath(Join(cfg.baseDir, rel))
  }

  /** The containment test `full_path.startswith(BASE_DIR)`: a plain string prefix, not aligned on a '/'. */
  predicate Inside(cfg: Config, full: string)
  {
    StartsWith(full, cfg.baseDir)
  }

  /** The routing decision. */
  datatype Route =
    | ListRoot                        // the listing of BASE_DIR
    | ListDir(full: string)           // the listing of a directory below it
    | Forbidden                       // 403
    | ViewFile(rel: string, file: Node)
    | SendFile(full: string, file: Node)
    | SendZip(rel: string)
    | NotFound                        // 404

  /** The `/browse/` branch: a decision, or None when the request falls through to the later tests. */
  function BrowseRoute(cfg: Config, fs: Node, rel: string): Option<Route>
  {
    var full := Resolve(cfg, rel);
    if !Inside(cfg, full) then Some(Forbidden)
    else if IsDir(fs, full) then Some(ListDir(full))
    else None
  }

  /** The regular file that `/view/` and `/download/` serve for `rel`, if it is inside and is a file. */
  function FileAt(cfg: Config, fs: Node, rel: string): (r: Option<Node>)
    ensures r.Some? <==> Inside(cfg, Resolve(cfg, rel)) && IsFile(fs, Resolve(cfg, rel))
    ensures r.Some? ==> r.value.File? && NodeAt(fs, Resolve(cfg, rel)) == r
  {
    var full := Resolve(cfg, rel);
    if !Inside(cfg, full) then None
    else
      match NodeAt(fs, full)
      case Some(f) => if f.File? then Some(f) else None
      case None => None
  }

  function RouteOf(cfg: Config, fs: Node, path: string): Route
  {
    if path == "/" || path == "/browse" || path == "/browse/" then ListRoot
    else
      var browse := if StartsWith(path, "/browse/") then BrowseRoute(cfg, fs, path[8..]) else None;
      if browse.Some? then browse.value
      else if StartsWith(path, "/view/") then
        match FileAt(cfg, fs, path[6..])
        case Some(f) => ViewFile(path[6..], f)
        case None => NotFound
      else if StartsWith(path, "/download/") then
        match FileAt(cfg, fs, path[10..])
        case Some(f) => SendFile(Resolve(cfg, path[10..]), f)
        case None => NotFound
      else if StartsWith(path, "/download-all") then SendZip(if |path| > 14 then path[14..] else "")
      else NotFound
  }

  /** What the handler writes back. */
  datatype Reply =
    | Html(page: Page)                                               // 200, text/html
    | FileBytes(filename: string, size: nat, data: Bytes)            // 200, an attachment
    | Zip(filename: string, entries: seq<ArchiveEntry>, data: Bytes) // 200, application/zip
    | Failure(status: nat, message: Option<string>)                  // send_error; None is an exception's text
    | Aborted                                                        // an exception escaped do_GET

  function Status(r: Reply): Option<nat>
  {
    match r
    case Html(_) => Some(200)
    case FileBytes(_, _, _) => Some(200)
    case Zip(_, _, _) => Some(200)
    case Failure(status, _) => Some(status)
    case Aborted => None
  }

  /** A listing is sent with status 200, the "Access Denied" page included; a listing that raises is not caught. */
  function ListReply(page: Option<Page>): Reply
  {
    if page.Some? then Html(page.value) else Aborted
  }

  /** The name offered for the archive: the last component of `rel_path`, or "archive". */
  function ZipName(rel: string): string
  {
    (if rel != "" then Basename(rel) else "archive") + ".zip"
  }

  /**
   * The reply once the route is known. `decode` is UTF-8 decoding and `encode`
   * the ZIP writer (None when it raises); both are outside this model. Header
   * lines are encoded strictly as Latin-1, so a file or archive name outside it
   * makes `send_header` raise.
   */
  function ReplyFor(cfg: Config, fs: Node, decode: Bytes -> Option<string>,
                    encode: seq<ArchiveEntry> -> Option<Bytes>, route: Route): Reply
    requires ValidConfig(cfg)
  {
    match route
    case ListRoot => ListReply(ListingOf(cfg, fs, cfg.baseDir))
    case ListDir(full) => ListReply(ListingOf(cfg, fs, full))
    case Forbidden => Failure(403, Some("Forbidden"))
    case NotFound => Failure(404, Some("Not found"))
    case ViewFile(rel, f) =>
      // reading the file may raise; the handler answers 500 with the exception's text
      if f.File? && f.content.Some? then Html(GenerateFileView("/" + rel, f.content.value, decode))
      else Failure(500, None)
    case SendFile(full, f) =>
      // only BrokenPipeError is caught: a header that fails to encode, or a read
      // that fails after the headers, escapes the handler
      if f.File? && f.content.Some? && Latin1(Basename(full)) then FileBytes(Basename(full), f.size, f.content.value)
      else Aborted
    case SendZip(rel) =>
      // `scandir` raises ValueError on a NUL, which `os.walk` does not catch
      if '\0' in StartPath(cfg, rel) then Failure(500, None)
      else
        var entries := ArchivePlan(cfg, fs, rel);
        match encode(entries)
        case Some(data) => if Latin1(ZipName(rel)) then Zip(ZipName(rel), entries, data) else Failure(500, None)
        case None => Failure(500, None)
  }

  function ReplyOf(cfg: Config, fs: Node, decode: Bytes -> Option<string>,
                   encode: seq<ArchiveEntry> -> Option<Bytes>, path: string): Reply
    requires ValidConfig(cfg)
  {
    ReplyFor(cfg, fs, decode, encode, RouteOf(cfg, fs, path))
  }

  /** `do_GET`: the decision is `RouteOf`; the listing and the archive are built by their methods. */
  method DoGet(cfg: Config, fs: Node, unquote: string -> string, decode: Bytes -> Option<string>,
               encode: seq<ArchiveEntry> -> Option<Bytes>, raw: string)
    returns (reply: Reply)
    requires ValidConfig(cfg)
    ensures reply == ReplyOf(cfg, fs, decode, encode, RequestPathOf(unquote, raw))
  {
    var path := unquote(Split(raw, '?')[0]);
    var route := RouteOf(cfg, fs, path);
    reply := Respond(cfg, fs, decode, encode, route);
  }

  /** The handler's work once the route is decided. */
  method Respond(cfg: Config, fs: Node, decode: Bytes -> Option<string>,
                 encode: seq<ArchiveEntry> -> Option<Bytes>, route: Route)
    returns (reply: Reply)
    requires ValidConfig(cfg)
    ensures reply == ReplyFor(cfg, fs, decode, encode, route)
  {
    match route {
      case ListRoot =>
        var page := GenerateDirectoryListing(cfg, fs, cfg.baseDir);
        reply := ListReply(page);
      case ListDir(full) =>
        var page := GenerateDirectoryListing(cfg, fs, full);
        reply := ListReply(page);
      case Forbidden =>
        reply := Failure(403, Some("Forbidden"));
      case NotFound =>
        reply := Failure(404, Some("Not found"));
      case ViewFile(rel, f) =>
        if f.File? && f.content.Some? {
          var page := GenerateFileView("/" + rel, f.content.value, decode);
          reply := Html(page);
        } else {
          reply := Failure(500, None);
        }
      case SendFile(full, f) =>
        var filename := Basename(full);
        if !Latin1(filename) {
          // the Content-Disposition header raises
          reply := Aborted;
        } else if f.File? && f.content.Some? {
          reply := FileBytes(filename, f.size, f.content.value);
        } else {
          reply := Aborted;
        }
      case SendZip(rel) =>
        var start := if rel != "" then Join(cfg.baseDir, rel) else cfg.baseDir;
        if '\0' in start {
          reply := Failure(500, None);
        } else {
          var entries := CreateZip(cfg, fs, rel);
          var data := encode(entries);
          var zipName := if rel != "" then Basename(rel) else "archive";
          if data.None? || !Latin1(zipName + ".zip") {
            reply := Failure(500, None);
          } else {
            reply := Zip(zipName + ".zip", entries, data.value);
          }
        }
    }
  }

  // ------------------------------------------------------------- the routes

  /** A string starts with each of its prefixes, and what follows the prefix is the rest. */
  lemma PrefixRest(a: string, b: string)
    ensures StartsWith(a + b, a) && (a + b)[|a|..] == b
  {
    assert (a + b)[..|a|] == a;
  }

  /** A string that differs from `p` at some position inside both does not start with `p`. */
  lemma DiffersAt(s: string, p: string, i: nat)
    requires i < |s| && i < |p| && s[i] != p[i]
    ensures !StartsWith(s, p)
  {
    if |p| <= |s| {
      assert s[..|p|][i] == s[i];
    }
  }

  /** Exactly "/", "/browse" and "/browse/" list BASE_DIR; when it is a directory the status is 200. */
  lemma RootPaths(cfg: Config, fs: Node, decode: Bytes -> Option<string>,
                  encode: seq<ArchiveEntry> -> Option<Bytes>, path: string)
    requires ValidConfig(cfg)
    requires path == "/" || path == "/browse" || path == "/browse/"
    ensures RouteOf(cfg, fs, path) == ListRoot
    ensures ReplyOf(cfg, fs, decode, encode, path) == ListReply(ListingOf(cfg, fs, cfg.baseDir))
    ensures IsDir(fs, cfg.baseDir) ==> Status(ReplyOf(cfg, fs, decode, encode, path)) == Some(200)
  {
  }

  /** The "Go back" link of the "Access Denied" page leads to the listing of BASE_DIR. */
  lemma AccessDeniedGoesBack(cfg: Config, fs: Node, decode: Bytes -> Option<string>,
                             encode: seq<ArchiveEntry> -> Option<Bytes>, path: string)
    requires ValidConfig(cfg)
    requires ListingOf(cfg, fs, path).Some? && ListingOf(cfg, fs, path).value.ErrorPage?
    ensures var back := RequestPath(ListingOf(cfg, fs, path).value.back);
            RouteOf(cfg, fs, back) == ListRoot &&
            ReplyOf(cfg, fs, decode, encode, back) == ListReply(ListingOf(cfg, fs, cfg.baseDir))
  {
    ListingOutcome(cfg, fs, path);
    RootPaths(cfg, fs, decode, encode, "/");
  }

  /**
   * `/browse/<rel>` answers 403 when the resolved path does not start with
   * BASE_DIR, lists it when it is inside and a directory, and otherwise falls
   * through every later test to the final 404.
   */
  lemma BrowseRoutes(cfg: Config, fs: Node, rel: string)
    requires rel != ""
    ensures var full := Resolve(cfg, rel);
            RouteOf(cfg, fs, "/browse/" + rel) ==
              if !Inside(cfg, full) then Forbidden
              else if IsDir(fs, full) then ListDir(full)
              else NotFound
  {
    var path := "/browse/" + rel;
    PrefixRest("/browse/", rel);
    DiffersAt(path, "/view/", 1);
    DiffersAt(path, "/download/", 1);
    DiffersAt(path, "/download-all", 1);
  }

  /** For `/browse/<rel>` the status is 403 exactly when the resolved path escapes the prefix test. */
  lemma BrowseForbidden(cfg: Config, fs: Node, decode: Bytes -> Option<string>,
                        encode: seq<ArchiveEntry> -> Option<Bytes>, rel: string)
    requires ValidConfig(cfg) && rel != ""
    ensures Status(ReplyOf(cfg, fs, decode, encode, "/browse/" + rel)) == Some(403)
            <==> !Inside(cfg, Resolve(cfg, rel))
  {
    BrowseRoutes(cfg, fs, rel);
    ForbiddenOnly(cfg, fs, decode, encode, RouteOf(cfg, fs, "/browse/" + rel));
  }

  /** 403 is answered for the Forbidden route and for no other. */
  lemma ForbiddenOnly(cfg: Config, fs: Node, decode: Bytes -> Option<string>,
                      encode: seq<ArchiveEntry> -> Option<Bytes>, route: Route)
    requires ValidConfig(cfg)
    ensures Status(ReplyFor(cfg, fs, decode, encode, route)) == Some(403) <==> route == Forbidden
  {
    match route
    case ListRoot => ListReplyStatus(ListingOf(cfg, fs, cfg.baseDir));
    case ListDir(full) => ListReplyStatus(ListingOf(cfg, fs, full));
    case _ =>
  }

  /** A listing is never answered with an error status. */
  lemma ListReplyStatus(page: Option<Page>)
    ensures Status(ListReply(page)) == Some(200) || Status(ListReply(page)) == None
  {
  }

  /** A contained `/browse/<rel>` that is not a directory falls through to the final 404. */
  lemma BrowseNotDir(cfg: Config, fs: Node, decode: Bytes -> Option<string>,
                     encode: seq<ArchiveEntry> -> Option<Bytes>, rel: string)
    requires ValidConfig(cfg) && rel != ""
    requires Inside(cfg, Resolve(cfg, rel)) && !IsDir(fs, Resolve(cfg, rel))
    ensures ReplyOf(cfg, fs, decode, encode, "/browse/" + rel) == Failure(404, Some("Not found"))
  {
    BrowseRoutes(cfg, fs, rel);
    NotFoundReply(cfg, fs, decode, encode, "/browse/" + rel);
  }

  lemma NotFoundReply(cfg: Config, fs: Node, decode: Bytes -> Option<string>,
                      encode: seq<ArchiveEntry> -> Option<Bytes>, path: string)
    requires ValidConfig(cfg) && RouteOf(cfg, fs, path) == NotFound
    ensures ReplyOf(cfg, fs, decode, encode, path) == Failure(404, Some("Not found"))
  {
  }

  /** `/view/<rel>` shows the file when the resolved path is inside and a regular file, and is 404 otherwise. */
  lemma ViewRoutes(cfg: Config, fs: Node, rel: string)
    ensures var full := Resolve(cfg, rel);
            RouteOf(cfg, fs, "/view/" + rel) ==
              if Inside(cfg, full) && IsFile(fs, full) then ViewFile(rel, NodeAt(fs, full).value)
              else NotFound
  {
    var path := "/view/" + rel;
    PrefixRest("/view/", rel);
    DiffersAt(path, "/browse/", 1);
  }

  lemma ViewNotFound(cfg: Config, fs: Node, decode: Bytes -> Option<string>,
                     encode: seq<ArchiveEntry> -> Option<Bytes>, rel: string)
    requires ValidConfig(cfg)
    ensures Status(ReplyOf(cfg, fs, decode, encode, "/view/" + rel)) == Some(404)
            <==> !Inside(cfg, Resolve(cfg, rel)) || !IsFile(fs, Resolve(cfg, rel))
  {
    ViewRoutes(cfg, fs, rel);
  }

  /** `/download/<rel>` sends the file when the resolved path is inside and a regular file, and is 404 otherwise. */
  lemma DownloadRoutes(cfg: Config, fs: Node, rel: string)
    ensures var full := Resolve(cfg, rel);
            RouteOf(cfg, fs, "/download/" + rel) ==
              if Inside(cfg, full) && IsFile(fs, full) then SendFile(full, NodeAt(fs, full).value)
              else NotFound
  {
    var path := "/download/" + rel;
    PrefixRest("/download/", rel);
    DiffersAt(path, "/browse/", 1);
    DiffersAt(path, "/view/", 1);
  }

  lemma DownloadNotFound(cfg: Config, fs: Node, decode: Bytes -> Option<string>,
                         encode: seq<ArchiveEntry> -> Option<Bytes>, rel: string)
    requires ValidConfig(cfg)
    ensures Status(ReplyOf(cfg, fs, decode, encode, "/download/" + rel)) == Some(404)
            <==> !Inside(cfg, Resolve(cfg, rel)) || !IsFile(fs, Resolve(cfg, rel))
  {
    DownloadRoutes(cfg, fs, rel);
  }

  /**
   * A file found by `/download/<rel>` is sent, under its own name and with its
   * size and bytes, exactly when it can be read and its name encodes as Latin-1;
   * otherwise the request is aborted, never answered with an error status.
   */
  lemma DownloadReply(cfg: Config, fs: Node, decode: Bytes -> Option<string>,
                      encode: seq<ArchiveEntry> -> Option<Bytes>, rel: string)
    requires ValidConfig(cfg)
    ensures var full := Resolve(cfg, rel);
            var reply := ReplyOf(cfg, fs, decode, encode, "/download/" + rel);
            reply.FileBytes? <==>
              Inside(cfg, full) && IsFile(fs, full) && NodeAt(fs, full).value.content.Some? && Latin1(Basename(full))
    ensures var full := Resolve(cfg, rel);
            var reply := ReplyOf(cfg, fs, decode, encode, "/download/" + rel);
            reply.FileBytes? ==>
              reply.filename == Basename(full) && reply.size == NodeAt(fs, full).value.size &&
              reply.data == NodeAt(fs, full).value.content.value
    ensures var full := Resolve(cfg, rel);
            var reply := ReplyOf(cfg, fs, decode, encode, "/download/" + rel);
            Inside(cfg, full) && IsFile(fs, full) ==> reply.FileBytes? || reply.Aborted?
  {
    DownloadRoutes(cfg, fs, rel);
  }

  /**
   * Every path starting with `/download-all` is answered with the archive of
   * `path[14:]` (or of BASE_DIR when the path is at most 14 characters long),
   * with status 200, or with 500 when the walk meets a NUL in the start path,
   * the ZIP writer raises or the archive's name does not encode as Latin-1; no
   * containment test is made, so the answer is never 403 or 404.
   */
  lemma DownloadAllRoutes(cfg: Config, fs: Node, decode: Bytes -> Option<string>,
                          encode: seq<ArchiveEntry> -> Option<Bytes>, path: string)
    requires ValidConfig(cfg) && StartsWith(path, "/download-all")
    ensures var rel := if |path| > 14 then path[14..] else "";
            var reply := ReplyOf(cfg, fs, decode, encode, path);
            RouteOf(cfg, fs, path) == SendZip(rel) &&
            (Status(reply) == Some(200) || Status(reply) == Some(500)) &&
            (Status(reply) == Some(500) <==>
               '\0' in StartPath(cfg, rel) || encode(ArchivePlan(cfg, fs, rel)).None? || !Latin1(ZipName(rel))) &&
            (reply.Zip? ==> reply.filename == ZipName(rel) && reply.entries == ArchivePlan(cfg, fs, rel))
  {
    DownloadAllShape(cfg, fs, path);
  }

  /**
   * `path[14:]` skips one character after `/download-all`, whatever it is: the
   * link `/download-all/<rel>` archives `rel`, `/download-allX<rel>` does too,
   * and `/download-all` alone archives BASE_DIR as "archive.zip".
   */
  lemma DownloadAllSubpath(cfg: Config, fs: Node, c: char, rest: string)
    ensures RouteOf(cfg, fs, "/download-all" + [c] + rest) == SendZip(rest)
  {
    var path := "/download-all" + [c] + rest;
    SkipOne("/download-all", c, rest);
    DownloadAllShape(cfg, fs, path);
  }

  lemma DownloadAllLink(cfg: Config, fs: Node, rest: string)
    ensures RouteOf(cfg, fs, RequestPath(DownloadAll(rest))) == SendZip(rest)
    ensures RouteOf(cfg, fs, "/download-all") == SendZip("") && ZipName("") == "archive.zip"
  {
    assert RequestPath(DownloadAll(rest)) == "/download-all" + ['/'] + rest;
    DownloadAllSubpath(cfg, fs, '/', rest);
    PrefixRest("/download-all", "");
    assert "/download-all" + "" == "/download-all";
    DownloadAllShape(cfg, fs, "/download-all");
  }

  lemma SkipOne(a: string, c: char, rest: string)
    ensures StartsWith(a + [c] + rest, a)
    ensures |a + [c] + rest| > |a| + 1 <==> rest != ""
    ensures (a + [c] + rest)[|a| + 1..] == rest
  {
    assert (a + [c] + rest)[..|a|] == a;
  }

  lemma DownloadAllShape(cfg: Config, fs: Node, path: string)
    requires StartsWith(path, "/download-all")
    ensures RouteOf(cfg, fs, path) == SendZip(if |path| > 14 then path[14..] else "")
  {
    assert path[..13] == "/download-all";
    assert path[1] == 'd' && path[9] == '-';
    DiffersAt(path, "/browse/", 1);
    DiffersAt(path, "/view/", 1);
    DiffersAt(path, "/download/", 9);
  }

  /** A path that matches none of the tests is answered 404. */
  lemma Unmatched(cfg: Config, fs: Node, decode: Bytes -> Option<string>,
                  encode: seq<ArchiveEntry> -> Option<Bytes>, path: string)
    requires ValidConfig(cfg)
    requires path != "/" && path != "/browse" && path != "/browse/"
    requires !StartsWith(path, "/browse/") && !StartsWith(path, "/view/")
    requires !StartsWith(path, "/download/") && !StartsWith(path, "/download-all")
    ensures ReplyOf(cfg, fs, decode, encode, path) == Failure(404, Some("Not found"))
  {
  }

  /** The query string is cut off before the path is decoded, so it never reaches the router. */
  lemma QueryIgnored(unquote: string -> string, raw: string, query: string)
    requires '?' !in raw
    ensures RequestPathOf(unquote, raw + "?" + query) == unquote(raw)
    ensures RequestPathOf(unquote, raw) == unquote(raw)
  {
    SplitAppend(raw, query, '?');
    SplitNoSep(raw, '?');
    assert raw + "?" + query == raw + ['?'] + query;
  }

  /**
   * `os.path.join` drops BASE_DIR in front of an absolute `rel`: `/browse//etc`
   * resolves to `/etc` and is refused only because `/etc` does not start with BASE_DIR.
   */
  lemma AbsoluteRel(cfg: Config, fs: Node, r: string)
    requires AbsNormal(r)
    ensures Resolve(cfg, r) == r
    ensures RouteOf(cfg, fs, "/browse/" + r) == Forbidden <==> !StartsWith(r, cfg.baseDir)
  {
    NormPathAbsNormal(r);
    BrowseRoutes(cfg, fs, r);
  }

  /**
   * The prefix test accepts a sibling of BASE_DIR whose name extends BASE_DIR's
   * last name: `/browse/../<last>x` lists `<BASE_DIR>x`, a directory outside
   * BASE_DIR's tree.
   */
  lemma SiblingBrowsed(cfg: Config, fs: Node, x: string)
    requires ValidConfig(cfg) && cfg.baseDir != "/" && x != "" && '/' !in x
    ensures var sibling := cfg.baseDir + x;
            var rel := "../" + Basename(cfg.baseDir) + x;
            AbsNormal(sibling) && !(Segments(cfg.baseDir) <= Segments(sibling)) &&
            Resolve(cfg, rel) == sibling && Inside(cfg, sibling) &&
            RouteOf(cfg, fs, "/browse/" + rel) == if IsDir(fs, sibling) then ListDir(sibling) else NotFound
  {
    SiblingAccepted(cfg.baseDir, x);
    BrowseRoutes(cfg, fs, "../" + Basename(cfg.baseDir) + x);
  }

  /**
   * ... and a file below such a sibling, `<BASE_DIR>x/<names>`, is shown by
   * `/view/` and sent by `/download/`.
   */
  lemma SiblingFileServed(cfg: Config, fs: Node, x: string, names: seq<string>)
    requires ValidConfig(cfg) && cfg.baseDir != "/" && x != "" && '/' !in x
    requires AllNames(names) && |names| >= 1
    ensures var target := cfg.baseDir + x + "/" + JoinWith('/', names);
            var rel := "../" + Basename(cfg.baseDir) + x + "/" + JoinWith('/', names);
            AbsNormal(target) && !(Segments(cfg.baseDir) <= Segments(target)) &&
            Resolve(cfg, rel) == target && Inside(cfg, target) &&
            (IsFile(fs, target) ==>
               RouteOf(cfg, fs, "/view/" + rel) == ViewFile(rel, NodeAt(fs, target).value) &&
               RouteOf(cfg, fs, "/download/" + rel) == SendFile(target, NodeAt(fs, target).value))
  {
    var rel := "../" + Basename(cfg.baseDir) + x + "/" + JoinWith('/', names);
    SiblingDescend(cfg.baseDir, x, names);
    ViewRoutes(cfg, fs, rel);
    DownloadRoutes(cfg, fs, rel);
  }

  /**
   * The Download button of a file view leads to the download of the same file,
   * provided the href reaches the handler as written: its raw href
   * "/download/" + rel is not `quote`d, so it must hold no '?' (the handler cuts
   * the query) and no '#' (the browser keeps the fragment to itself), and
   * `unquote` must leave it unchanged.
   */
  lemma ViewThenDownload(cfg: Config, fs: Node, unquote: string -> string, decode: Bytes -> Option<string>,
                         encode: seq<ArchiveEntry> -> Option<Bytes>, rel: string)
    requires ValidConfig(cfg)
    requires Inside(cfg, Resolve(cfg, rel)) && IsFile(fs, Resolve(cfg, rel))
    requires NodeAt(fs, Resolve(cfg, rel)).value.content.Some?
    requires '?' !in rel && '#' !in rel && unquote("/download/" + rel) == "/download/" + rel
    ensures var f := NodeAt(fs, Resolve(cfg, rel)).value;
            var reply := ReplyOf(cfg, fs, decode, encode, "/view/" + rel);
            reply.Html? && reply.page.FileView? && reply.page.downloadPath == "/download/" + rel &&
            RouteOf(cfg, fs, RequestPathOf(unquote, reply.page.downloadPath)) == SendFile(Resolve(cfg, rel), f)
  {
    var f := NodeAt(fs, Resolve(cfg, rel)).value;
    ViewRoutes(cfg, fs, rel);
    ViewReply(cfg, fs, decode, encode, rel, f);
    var page := GenerateFileView("/" + rel, f.content.value, decode);
    DownloadSlash(rel);
    assert page.downloadPath == "/download/" + rel;
    NoQueryInDownload(rel);
    QueryIgnored(unquote, "/download/" + rel, "");
    DownloadRoutes(cfg, fs, rel);
  }

  /**
   * A '?' in the file's name cuts its Download button: for `rel` = a + "?" + b
   * the handler sees only `unquote` of "/download/" + a, and so sends the file
   * at `a` (when that is a contained file) or answers 404, whatever `rel` was.
   */
  lemma ViewDownloadCut(cfg: Config, fs: Node, unquote: string -> string, decode: Bytes -> Option<string>,
                        encode: seq<ArchiveEntry> -> Option<Bytes>, a: string, b: string)
    requires ValidConfig(cfg)
    requires '?' !in a
    requires Inside(cfg, Resolve(cfg, a + "?" + b)) && IsFile(fs, Resolve(cfg, a + "?" + b))
    requires NodeAt(fs, Resolve(cfg, a + "?" + b)).value.content.Some?
    ensures var reply := ReplyOf(cfg, fs, decode, encode, "/view/" + a + "?" + b);
            reply.Html? && reply.page.FileView? &&
            RequestPathOf(unquote, reply.page.downloadPath) == unquote("/download/" + a)
    ensures var reply := ReplyOf(cfg, fs, decode, encode, "/view/" + a + "?" + b);
            var full := Resolve(cfg, a);
            unquote("/download/" + a) == "/download/" + a ==>
              reply.Html? && reply.page.FileView? &&
              RouteOf(cfg, fs, RequestPathOf(unquote, reply.page.downloadPath)) ==
                if Inside(cfg, full) && IsFile(fs, full) then SendFile(full, NodeAt(fs, full).value) else NotFound
  {
    var rel := a + "?" + b;
    var f := NodeAt(fs, Resolve(cfg, rel)).value;
    Assoc4("/view/", a, "?", b);
    ViewRoutes(cfg, fs, rel);
    ViewReply(cfg, fs, decode, encode, rel, f);
    var page := GenerateFileView("/" + rel, f.content.value, decode);
    DownloadSlash(rel);
    Assoc4("/download/", a, "?", b);
    NoQueryInDownload(a);
    QueryIgnored(unquote, "/download/" + a, b);
    DownloadRoutes(cfg, fs, a);
  }

  lemma NoQueryInDownload(rel: string)
    requires '?' !in rel
    ensures '?' !in "/download/" + rel
  {
    forall i | 0 <= i < |"/download/" + rel|
      ensures ("/download/" + rel)[i] != '?'
    {
      if i >= 10 {
        assert ("/download/" + rel)[i] == rel[i - 10];
      }
    }
  }

  lemma ViewReply(cfg: Config, fs: Node, decode: Bytes -> Option<string>,
                  encode: seq<ArchiveEntry> -> Option<Bytes>, rel: string, f: Node)
    requires ValidConfig(cfg)
    requires RouteOf(cfg, fs, "/view/" + rel) == ViewFile(rel, f) && f.File? && f.content.Some?
    ensures ReplyOf(cfg, fs, decode, encode, "/view/" + rel) == Html(GenerateFileView("/" + rel, f.content.value, decode))
  {
  }

  lemma DownloadSlash(rel: string)
    ensures "/download" + ("/" + rel) == "/download/" + rel == RequestPath(Download(rel))
  {
  }

  // ------------------------------------------------------------ listing links

  /** The directory reached from BASE_DIR by descending through `parts`. */
  function DirPath(cfg: Config, parts: seq<string>): string
  {
    if parts == [] then cfg.baseDir else Join(cfg.baseDir, JoinWith('/', parts))
  }

  lemma AllNamesAppend(parts: seq<string>, name: string)
    requires AllNames(parts) && IsName(name)
    ensures AllNames(parts + [name])
  {
    assert forall k :: 0 <= k < |parts| ==> (parts + [name])[k] == parts[k];
  }

  /**
   * The path a listing row carries for the entry `name` (`rel_path/name`)
   * resolves to `os.path.join(path, name)`, inside BASE_DIR.
   */
  lemma ItemResolves(cfg: Config, parts: seq<string>, name: string)
    requires ValidConfig(cfg) && AllNames(parts) && IsName(name)
    ensures var dir := DirPath(cfg, parts);
            var item := ItemPath(RelOf(cfg, dir), name);
            AbsNormal(dir) && item != "" &&
            Resolve(cfg, item) == Join(dir, name) && Inside(cfg, Join(dir, name))
  {
    var base := cfg.baseDir;
    var all := parts + [name];
    AllNamesAppend(parts, name);
    ResolveDescend(base, all);
    if parts == [] {
      ItemAtBase(cfg, name);
    } else {
      ItemBelow(cfg, parts, name);
    }
  }

  lemma ItemAtBase(cfg: Config, name: string)
    requires ValidConfig(cfg) && IsName(name)
    ensures ItemPath(RelOf(cfg, cfg.baseDir), name) == name == JoinWith('/', [] + [name])
  {
    ListingAtBase(cfg);
    assert [] + [name] == [name];
  }

  lemma ItemBelow(cfg: Config, parts: seq<string>, name: string)
    requires ValidConfig(cfg) && AllNames(parts) && IsName(name) && parts != []
    ensures var dir := Join(cfg.baseDir, JoinWith('/', parts));
            AbsNormal(dir) &&
            ItemPath(RelOf(cfg, dir), name) == JoinWith('/', parts + [name]) &&
            Join(dir, name) == Join(cfg.baseDir, JoinWith('/', parts + [name]))
  {
    var base := cfg.baseDir;
    var dir := Join(base, JoinWith('/', parts));
    ListingBelow(cfg, parts);
    JoinSegmentsEnds(parts);
    JoinPlain(JoinWith('/', parts), name);
    JoinWithSnoc('/', parts, name);
    ResolveDescend(base, parts);
    AllNamesAppend(parts, name);
    SameDescent(base, dir, parts, name);
  }

  lemma SameDescent(base: string, dir: string, parts: seq<string>, name: string)
    requires AbsNormal(base) && AbsNormal(dir) && AllNames(parts + [name]) && IsName(name)
    requires Segments(dir) == Segments(base) + parts
    ensures Join(dir, name) == Join(base, JoinWith('/', parts + [name]))
  {
    assert AllNames([name]);
    DescendShape(dir, [name]);
    DescendShape(base, parts + [name]);
    assert JoinWith('/', [name]) == name;
    assert Segments(dir) + [name] == Segments(base) + (parts + [name]);
  }

  /**
   * Every link of a listing row leads back to its entry: a directory row's
   * link lists that directory, a file row's two links view and download that
   * file. (`parts` names the listed directory below BASE_DIR.)
   */
  lemma ListedEntryServed(cfg: Config, fs: Node, parts: seq<string>, name: string)
    requires ValidConfig(cfg) && AllNames(parts) && IsName(name)
    requires IsDir(fs, DirPath(cfg, parts))
    ensures var dir := DirPath(cfg, parts);
            var item := ItemPath(RelOf(cfg, dir), name);
            var target := Join(dir, name);
            var entry := Child(NodeAt(fs, dir).value.children, name);
            NodeAt(fs, target) == entry &&
            (entry.Some? && entry.value.Dir? ==>
               RouteOf(cfg, fs, RequestPath(Browse(item))) == ListDir(target)) &&
            (entry.Some? && entry.value.File? ==>
               RouteOf(cfg, fs, RequestPath(View(item))) == ViewFile(item, entry.value) &&
               RouteOf(cfg, fs, RequestPath(Download(item))) == SendFile(target, entry.value))
  {
    var dir := DirPath(cfg, parts);
    var item := ItemPath(RelOf(cfg, dir), name);
    ItemResolves(cfg, parts, name);
    NodeAtChild(fs, dir, name);
    var target := Join(dir, name);
    if IsDir(fs, target) {
      EntryDirRoute(cfg, fs, item, target);
    }
    if IsFile(fs, target) {
      EntryFileRoutes(cfg, fs, item, target);
    }
  }

  /** The browse link of a directory that resolves inside BASE_DIR lists it. */
  lemma EntryDirRoute(cfg: Config, fs: Node, item: string, target: string)
    requires item != "" && Resolve(cfg, item) == target && Inside(cfg, target) && IsDir(fs, target)
    ensures RouteOf(cfg, fs, RequestPath(Browse(item))) == ListDir(target)
  {
    assert RequestPath(Browse(item)) == "/browse/" + item;
    BrowseRoutes(cfg, fs, item);
  }

  /** The view and download links of a file that resolves inside BASE_DIR serve it. */
  lemma EntryFileRoutes(cfg: Config, fs: Node, item: string, target: string)
    requires Resolve(cfg, item) == target && Inside(cfg, target) && IsFile(fs, target)
    ensures RouteOf(cfg, fs, RequestPath(View(item))) == ViewFile(item, NodeAt(fs, target).value)
    ensures RouteOf(cfg, fs, RequestPath(Download(item))) == SendFile(target, NodeAt(fs, target).value)
  {
    assert RequestPath(View(item)) == "/view/" + item;
    assert RequestPath(Download(item)) == "/download/" + item;
    ViewRoutes(cfg, fs, item);
    DownloadRoutes(cfg, fs, item);
  }
}
