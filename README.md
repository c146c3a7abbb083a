# server.py, modelled in Dafny

`server.py` is a single-file HTTP server for browsing a directory. It serves
the working directory, BASE_DIR, and answers GET requests:

- `/`, `/browse` and `/browse/<rel>` list a directory;
- `/view/<rel>` shows a file as escaped text, an inline image or a notice;
- `/download/<rel>` sends the file's bytes;
- `/download-all[/<rel>]` sends a ZIP archive of a directory tree.

This project models the deterministic core of the server and proves what it
does:

- the path resolution and the containment test on request paths;
- the routing decision of `do_GET` and the reply it leads to;
- `generate_directory_listing`: the hidden-name filter, the case-insensitive
  stable sort, the directories-then-files split, the breadcrumb, the rows, the
  parent link and the ZIP link;
- `format_size`: the choice of unit and the exact scaled value;
- `generate_file_view`: the extension classifier and the `&`/`<`/`>` escaper;
- `generate_error`;
- `create_zip`: the `os.walk` traversal with hidden directories pruned and
  hidden files skipped, the archive name of each file, and files that cannot
  be read, or whose modification time a ZIP header cannot hold, silently
  skipped.

## Layout

- The `os.path` functions the server uses are purely lexical string functions: `posixpath.dfy`.
- The `str` methods are in `pystr.dfy`.
- The filesystem is one abstract tree rooted at "/" (`filesystem.dfy`). Each
  entry is one of three kinds:
  - a file, with its size, mtime and bytes (the bytes are None when reading fails);
  - a directory, with a flag saying whether it can be listed;
  - a broken entry whose `stat` fails.
- BASE_DIR and SHOW_HIDDEN are set once at startup. Together with the offset
  of the host's local time zone from UTC, they form an immutable `Config`
  record passed to every operation (`config.dfy`).
- The server looks up normalised paths lexically (`FileSystem.NodeAt`). The
  archive walk starts from a path that is joined but not normalised, so it is
  resolved the way the operating system resolves it, one component at a time
  (`FileSystem.ResolvedAt`).
- The routing decision is the pure function `Router.RouteOf`.
  `Router.DoGet` computes it and then builds the reply by calling the
  imperative models:
  - `Listing.GenerateDirectoryListing`, whose loops fill `dirs`/`files`, the
    breadcrumb and the rows;
  - `FileView.GenerateFileView`;
  - `Archive.CreateZip`, an explicit-stack walk with an inner loop over the
    files.
- Each method is proved equal to a specification function. The properties
  are then proved about that function.

Three behaviours of the code are worth noting.

- **Containment test.** The code tests containment with a plain string
  prefix, `full_path.startswith(BASE_DIR)`. That test is not aligned on a
  '/', so a sibling directory such as `BASE_DIR + "2"` passes it. The
  boundary-aligned rule is stated separately as `PosixPath.AlignedPrefixInside`.
  `Router.SiblingBrowsed` and `Router.SiblingFileServed` show the sibling
  being served.
- **Status for an escaping path.** Only `/browse/` answers 403 to an
  escaping path. `/view/` and `/download/` answer 404 to it.
- **Unquoted Download button.** The file view writes its Download href as
  `/download{filepath}` without `quote`, unlike the listing's links. The
  handler cuts a request path at the first '?' and then unquotes it, so a
  file named `a?b.txt` offers a button that asks for `/download/a`, and a
  name holding `%41` asks for a different name. `Router.ViewThenDownload`
  proves the button works only for names the href carries unchanged;
  `Router.ViewDownloadCut` shows the cut.

## Model

| member | source | states |
|---|---|---|
| Router.DoGet | server.py:268-348 | the reply to a raw request path is the reply of the route chosen for its decoded path before '?' |
| Router.Respond | server.py:271-346 | the handler's work for each route yields exactly the reply the routing decision prescribes |
| Router.QueryIgnored | server.py:269 | everything from the first '?' on is dropped before `unquote` |
| Router.RootPaths | server.py:271-278 | exactly "/", "/browse" and "/browse/" list BASE_DIR, with status 200 when it is a directory |
| Router.BrowseRoutes | server.py:280-293 | `/browse/<rel>` is 403 when the normalised join fails the prefix test, a listing when it is a directory inside, and otherwise falls through to the final 404 |
| Router.BrowseForbidden | server.py:282-285 | `/browse/<rel>` answers 403 if and only if the resolved path does not start with BASE_DIR |
| Router.ForbiddenOnly | server.py:284 | 403 is the reply of the Forbidden route and of no other route |
| Router.BrowseNotDir | server.py:286 | a contained `/browse/<rel>` that is not a directory gets the final 404 |
| Router.FileAt | server.py:297-298 | a file is served for `rel` exactly when the resolved path passes the prefix test and is a regular file |
| Router.ViewRoutes | server.py:295-300 | `/view/<rel>` views the file when it is inside and a regular file, otherwise routes to 404 |
| Router.ViewNotFound | server.py:297-300 | `/view/<rel>` answers 404 if and only if the resolved path escapes or is not a regular file |
| Router.ViewReply | server.py:301-311 | a readable file is shown by `generate_file_view` of "/" + rel |
| Router.DownloadRoutes | server.py:314-319 | `/download/<rel>` sends the resolved file when it is inside and a regular file, otherwise routes to 404 |
| Router.DownloadNotFound | server.py:316-319 | `/download/<rel>` answers 404 if and only if the resolved path escapes or is not a regular file |
| Router.DownloadReply | server.py:320-330 | a file found by `/download/<rel>` is sent with its basename, size and bytes if and only if it is readable and its basename encodes as Latin-1 in the Content-Disposition header; otherwise the request is aborted, since only BrokenPipeError is caught |
| Router.ViewThenDownload | server.py:234 | the view page's Download href is the raw "/download/" + rel; when rel holds no '?' or '#' and `unquote` leaves the href unchanged, the request path it produces (server.py:269) routes to sending that same file (server.py:316-319) |
| Router.ViewDownloadCut | server.py:234 | for a file named a + "?" + b, the Download href reaches the handler as `unquote` of "/download/" + a, which sends the file at a or answers 404 |
| Router.DownloadAllShape | server.py:333-334 | any path starting with "/download-all" archives `path[14:]` when it is longer than 14, else "" |
| Router.DownloadAllSubpath | server.py:334 | the one character after "/download-all" is skipped, whatever it is |
| Router.DownloadAllRoutes | server.py:333-346 | the archive reply is 200 or 500; it is 500 exactly when the start path holds a NUL (the walk's `scandir` raises ValueError), writing the ZIP raises, or the name basename-or-"archive" plus ".zip" does not encode as Latin-1 in the header; a 200 carries the planned entries under that name |
| Router.DownloadAllLink | server.py:333-337 | the listing's ZIP link archives its own `rel_path`, and a bare "/download-all" archives the root as "archive.zip" |
| Router.Unmatched | server.py:348 | a path matching none of the prefixes answers 404 |
| Router.AbsoluteRel | server.py:282-283 | an absolute `rel` discards BASE_DIR in the join, and is then forbidden exactly when it does not start with BASE_DIR |
| Router.SiblingBrowsed | server.py:280-293 | "../<basename>x" resolves to the sibling BASE_DIR+x, which is not below BASE_DIR yet passes the prefix test and is listed |
| Router.SiblingFileServed | server.py:295-319 | a file below the sibling BASE_DIR+x is viewed and downloaded |
| Router.ItemResolves | server.py:78-85 | an item path written in a listing resolves to the listed directory joined with the name, which passes the prefix test |
| Router.ListedEntryServed | server.py:78-85 | every listed entry's links route back to it: a directory's browse link lists it, a file's view and download links serve it |
| Router.EntryDirRoute | server.py:81 | a browse link to a contained directory lists that directory |
| Router.EntryFileRoutes | server.py:84-85 | view and download links to a contained file serve that file |
| Listing.GenerateDirectoryListing | server.py:26-89 | the page built step by step is the listing specification of the directory |
| Listing.ListingOutcome | server.py:32-35 | a directory always gets a page: "Access Denied" with a "Go back" link to "/" exactly when it cannot be listed, else the listing titled by `rel_path` or "Root" |
| Listing.CollectItems | server.py:37-57 | the loop over the sorted entries fills `dirs` and `files` with the visible entries whose stat and `datetime.fromtimestamp` succeed (local time from 2 January of year 1 to the end of 9999), split by kind |
| Listing.ListedDirsFirst | server.py:57 | every directory precedes every file |
| Listing.ListedSorted | server.py:40-57 | within each group the names ascend case-insensitively |
| Listing.ListedMembers | server.py:41-55 | an entry whose stat succeeds is listed if and only if it passes the hidden filter and its modification time converts to a local date from 2 January of year 1 to the end of 9999 |
| Listing.ListedFrom | server.py:41-55 | every listed item comes from a visible entry whose stat and date conversion succeed, directories carry size 0, and no hidden name is listed when SHOW_HIDDEN is off |
| Listing.BuildBreadcrumb | server.py:59-69 | "Home" alone at the root; otherwise k+1 crumbs, Home to "/" and the i-th to the first i segments joined |
| Listing.BreadcrumbSegments | server.py:59-69 | for a `rel_path` of k segments the trail has k+1 links and the last one targets the directory itself |
| Listing.BuildRows | server.py:71-87 | the rows built by the loop are the row specification of the items |
| Listing.RowsLinks | server.py:71-87 | a ".." row comes first if and only if `rel_path` is non-empty, then one row per item, in order |
| Listing.ListingLinks | server.py:72-89 | the ".." row leads to "/" exactly when `dirname(rel_path)` is empty, and the ZIP link is present exactly when some item is listed |
| Listing.ListingAtBase | server.py:28-30 | at BASE_DIR `rel_path` is empty, so the breadcrumb is plain "Home" and no ".." row appears |
| Listing.ListingBelow | server.py:28-75 | below BASE_DIR `rel_path` is the joined names, the breadcrumb has one more crumb than segments, and ".." leads to the parent |
| Sorting.SortByKey | server.py:40 | the result is sorted by lower-cased name and is a permutation of the entries |
| Sorting.Insert | server.py:40 | inserting keeps the order and adds exactly one element |
| Sorting.SortStable | server.py:40 | the entries of any one key keep their relative order: the sort is stable |
| Sorting.SortedMembers | server.py:40 | sorting keeps exactly the entries it was given |
| SizeFormat.FormatSize | server.py:17-24 | the loop's result is "0 B" for 0, otherwise the value and unit of the size label specification |
| SizeFormat.FormatSizeUnit | server.py:20-24 | a positive size is shown in unit k exactly when k is the least unit under 1024 of it, PB taking the rest |
| SizeFormat.FormatSizeValue | server.py:20-24 | the value shown times 1024^k is the size, and lies in [1, 1024) below PB |
| SizeFormat.UnitIndexLeast | server.py:20-21 | the unit search settles on the first index whose next power exceeds the size |
| SizeFormat.FormatSizeExamples | server.py:17-24 | 0 is "0 B", 1023 B, 1024 is 1.0 KB, 1536 is 1.5 KB, and from 1024^5 on the unit is PB |
| FileView.GenerateFileView | server.py:189-234 | the page is titled by the basename and its Download link is "/download" + filepath |
| FileView.FileViewText | server.py:195-201 | a text-like or extensionless file shows its decoded text escaped, free of '<' and '>' and unescaping back to the text, or "Cannot display file" exactly when decoding fails |
| FileView.FileViewOther | server.py:202-207 | image extensions give an image of type `image/<ext without dot>` with the raw bytes, ".pdf" the PDF notice, everything else the binary notice |
| FileView.EscapeIsSinglePass | server.py:198 | the three chained replaces, '&' first, equal one pass that escapes each character on its own |
| FileView.EscapedHasNoTags | server.py:198 | escaped text contains no raw '<' or '>' |
| FileView.EscapeRoundTrip | server.py:198 | unescaping the escaped text gives back the text |
| FileView.ExtensionCaseFolded | server.py:191 | the extension is matched whatever its case |
| FileView.DotFilesAreTextLike | server.py:191-195 | a leading dot starts no extension, so ".env" or ".gitignore" is shown as extensionless text |
| Pages.GenerateError | server.py:183-187 | the error page shows the message it is given and links back to "/" |
| Router.AccessDeniedGoesBack | server.py:32-35 | the "Go back" link of the "Access Denied" page routes to the listing of BASE_DIR |
| Archive.CreateZip | server.py:240-262 | the entries written by the walk are the archive specification of `rel_path` |
| Archive.WriteFiles | server.py:254-262 | the loop over one directory's files writes, in order, each visible file that can be read and whose local modification year lies in 1980-2107, under `arc_root/relpath`, and skips the rest |
| Archive.PushDirs | server.py:251-253 | `os.walk` pushes the kept sub-directories so that they are visited in order, and the pending work grows by exactly their plans |
| Archive.WalkPlanMembers | server.py:251-262 | a file is archived if and only if it is reached through listable directories, every component is visible, it can be read, and its local modification year lies in 1980-2107 |
| Archive.ArchiveContents | server.py:244-262 | from the entry the start path resolves to, the archive holds exactly the archivable files (readable and datable), and no component of any of them is hidden when SHOW_HIDDEN is off |
| Archive.ArchiveNames | server.py:244-258 | every entry is named `arc_root/c1/.../cn` and read from `start_path/c1/.../cn`; the name is the one given to `zf.write`, which `zipfile` stores normalised (an `arc_root` of "." gives "./x.txt", stored as "x.txt") |
| Archive.ArchiveOfNothing | server.py:251 | a start path that resolves to no directory gives an empty archive |
| Archive.ZipThroughMissing | server.py:244-251 | `rel_path` "name/.." normalises to BASE_DIR, yet when `name` is missing or not a directory the walk's start path does not resolve and the archive is empty |
| Archive.ZipStartNormal | server.py:244-251 | a `rel_path` of plain names starts the walk at the entry its normalised join names |
| FileSystem.ResolvedAtNormal | server.py:251 | on a normalised absolute path the operating system's resolution finds what the lexical lookup finds |
| Archive.ZipStartUnchecked | server.py:244-246 | `rel_path` is joined without any containment check: an absolute one replaces BASE_DIR |
| Archive.ZipParentEscapes | server.py:244-245 | `rel_path` ".." makes the walk start outside BASE_DIR |
| Archive.FilesHereMember | server.py:254-262 | the files planned in one directory are exactly its visible non-directories that can be read and dated in a ZIP header |
| FileSystem.NodeAtChild | server.py:43 | `os.path.join(path, item)` names the child entry called `item` |
| PosixPath.NormPathAbsolute | server.py:282 | normpath of an absolute path is one or two slashes and the components left after dropping "" and "." and applying ".." |
| PosixPath.NormPathAbsNormal | server.py:282 | normpath leaves an absolute normalised path unchanged |
| PosixPath.ResolveDescend | server.py:282-283 | joining names onto a directory gives a normalised path that starts with it at a '/' boundary |
| PosixPath.ParentEscapes | server.py:282-283 | ".." from BASE_DIR normalises to its parent, which fails the prefix test |
| PosixPath.SiblingAccepted | server.py:282-283 | "../<basename>x" normalises to BASE_DIR+x, which starts with BASE_DIR as a string but is not below it |
| PosixPath.SiblingDescend | server.py:297-298 | the same holds for any path below the sibling BASE_DIR+x |
| PosixPath.AlignedPrefixInside | server.py:283 | a prefix that ends at a '/' boundary does mean containment by path components |
| PosixPath.RelPathSelf | server.py:28-30 | `relpath(BASE_DIR, BASE_DIR)` is ".", which the listing turns into "" |
| PosixPath.RelPathBelow | server.py:28 | the relpath of a directory below BASE_DIR is its names joined by '/' |
| PosixPath.RelPathDescend | server.py:258 | the relpath of a walked file against the start path is its components joined by '/' |
| PosixPath.BasenameJoin | server.py:246 | the basename of a joined relative path is its last segment |
| PosixPath.DirnameJoin | server.py:73 | the dirname of a joined relative path drops its last segment, and is "" for one segment |
| PyStr.JoinSplit | server.py:61-67 | joining the split of a string with the same separator gives it back |
| PyStr.SplitJoin | server.py:61 | splitting a join of separator-free pieces gives the pieces back |

## Left out

- Sockets, `wfile` writes and `BrokenPipeError` handling are not modelled; of `send_header`, only its strict Latin-1 encoding of the file and archive names is. A reply is a value: a page, file bytes, a ZIP, an error status, or "aborted" when an exception escapes `do_GET`.
- The startup prompt, `print` and `webbrowser.open` are interactive I/O. SHOW_HIDDEN is a field of `Config`.
- `urllib.parse.unquote` is a function parameter of `Router.DoGet`; `quote` is not modelled. A quoted link is named by the decoded request path it leads to; the file view's unquoted Download href is kept as a raw string. How a browser percent-encodes an href before sending it is not modelled.
- Entry names are modelled as valid Unicode strings. A name that is not valid UTF-8 reaches the code surrogate-escaped, and this is not modelled: in a listing, `quote` and `.encode('utf-8')` raise on it and the whole listing of its directory is aborted; in an archive, `zipfile` fails to encode its name and the file is skipped.
- UTF-8 decoding is a parameter (`decode`, None when it raises). The ZIP and deflate encoder is a parameter (`encode`, None when it raises); a file that fails to be written is skipped, so the 500s of `/download-all` are a raising encoder, a NUL in the start path and an archive name outside Latin-1. When a header fails to encode, `send_response(200)` has already buffered its status line, which goes out ahead of the 500; the model keeps only the 500.
- base64 encoding of images is not modelled: an image carries its raw bytes and its MIME type.
- The HTML and CSS template text is not modelled. Pages record only their title, links, rows and messages.
- The real filesystem is an abstract tree. Symbolic links are not modelled, so resolving ".." climbs to the directory the path came from. Searching a directory is always permitted; only reading it (listing) can be refused. When a name occurs twice in a directory, path lookups find the first entry, while the listing and the archive walk visit both.
- `os.stat` fails only on a broken entry, and `os.listdir` fails only on an unlistable directory (PermissionError) or on a path that is no directory (the exception escapes and the request is aborted); other operating-system errors are not modelled.
- Modification times are whole seconds; `strftime` is not modelled. An entry is listed only when its local time falls in the years 1 to 9999, the range of `datetime`, and not on the first day of year 1, since `fromtimestamp` also converts the instant one day earlier to detect a fold; further platform limits of `localtime` are not modelled.
- The local time zone is a fixed offset from UTC (`Config.utcOffset`). Daylight-saving changes, which move the ZIP bounds of 1980 and 2108 and the listing bounds of year 1 and 9999 by the DST shift, are not modelled.
- Concurrency is not modelled: the handler keeps no shared mutable state.
- SizeFormat.FormatSize: the "%.1f" rendering is not modelled. The label carries the exact quotient, so a value that rounds to "1024.0" is not distinguished.
- Sorting.SortByKey: `str.lower` is modelled for ASCII letters only. Non-ASCII case folding is not modelled.
- FileView.GenerateFileView: the same ASCII-only lowering applies to the extension.
- Router.Respond: the text of an exception's 500 message is not modelled (None), and a `/download/` whose read fails after the headers went out is modelled as an aborted request. A 500 whose message (an `OSError` text quoting the path) does not encode as Latin-1 makes `send_error` itself raise; the model still answers 500.
