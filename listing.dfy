/** `generate_directory_listing` (server.py:26-89). */
module Listing {
  import opened Wrappers
  import opened Seqs
  import opened PyStr
  import opened PosixPath
  import opened Config
  import opened FileSystem
  import opened Sorting
  import opened SizeFormat
  import opened Pages

  /** The `(name, size, mtime, is_dir)` tuple collected for an entry. */
  datatype Item = Item(name: string, size: nat, mtime: int, isDir: bool)

  /** The tuple for an entry whose `stat` succeeds; a directory gets size 0. */
  function ItemOf(n: Node): Item
    requires !n.Broken?
  {
    match n
    case Dir(name, mtime, _, _) => Item(name, 0, mtime, true)
    case File(name, size, mtime, _) => Item(name, size, mtime, false)
  }

  function LowerName(it: Item): string
  {
    Lower(it.name)
  }

  /** 0001-01-02 and 10000-01-01 at midnight, in seconds since the epoch. */
  const FirstDate := -62135510400
  const PastLastDate := 253402300800

  /**
   * `datetime.fromtimestamp` gives a local time in the years 1 to 9999 and raises
   * outside them. To detect a fold it also converts the instant one day earlier,
   * so the first day of year 1 raises as well. The local time is the timestamp
   * shifted by the configured offset.
   */
  predicate ListDatable(cfg: Config, mtime: int)
  {
    FirstDate <= mtime + cfg.utcOffset < PastLastDate
  }

  /**
   * The entry survives the hidden filter, the `stat` and the date conversion, and
   * lands in the `dirs` list iff `dirs`.
   */
  predicate Keeps(cfg: Config, n: Node, dirs: bool)
  {
    Visible(cfg, n.name) && !n.Broken? && ListDatable(cfg, n.mtime) && n.Dir? == dirs
  }

  /** The `dirs` (or `files`) list after visiting the entries `xs` in order. */
  function KeptItems(cfg: Config, xs: seq<Node>, dirs: bool): seq<Item>
    decreases |xs|
  {
    if xs == [] then []
    else
      var init := KeptItems(cfg, xs[..|xs| - 1], dirs);
      var last := xs[|xs| - 1];
      if Keeps(cfg, last, dirs) then init + [ItemOf(last)] else init
  }

  /** The `items = dirs + files` list of a directory with the given entries. */
  function ListedItems(cfg: Config, entries: seq<Node>): seq<Item>
  {
    var sorted := SortByKey(entries);
    KeptItems(cfg, sorted, true) + KeptItems(cfg, sorted, false)
  }

  /** The loop over the sorted entries that fills `dirs` and `files` (server.py:37-57). */
  method CollectItems(cfg: Config, entries: seq<Node>) returns (dirs: seq<Item>, files: seq<Item>)
    ensures dirs == KeptItems(cfg, SortByKey(entries), true)
    ensures files == KeptItems(cfg, SortByKey(entries), false)
    ensures dirs + files == ListedItems(cfg, entries)
  {
    var sorted := SortByKey(entries);
    dirs, files := [], [];
    for i := 0 to |sorted|
      invariant dirs == KeptItems(cfg, sorted[..i], true)
      invariant files == KeptItems(cfg, sorted[..i], false)
    {
      var entry := sorted[i];
      KeptStep(cfg, sorted, i, true);
      KeptStep(cfg, sorted, i, false);
      if !cfg.showHidden && IsHidden(entry.name) {
        continue;
      }
      if entry.Broken? {
        // isdir or stat raised: the entry is skipped
        continue;
      }
      if !ListDatable(cfg, entry.mtime) {
        // fromtimestamp raised: the entry is skipped
        continue;
      }
      if entry.Dir? {
        dirs := dirs + [ItemOf(entry)];
      } else {
        files := files + [ItemOf(entry)];
      }
    }
    assert sorted[..|sorted|] == sorted;
  }

  /** Visiting one more entry appends its tuple to the list it is kept in. */
  lemma KeptStep(cfg: Config, xs: seq<Node>, i: nat, dirs: bool)
    requires i < |xs|
    ensures KeptItems(cfg, xs[..i + 1], dirs) ==
            KeptItems(cfg, xs[..i], dirs) + if Keeps(cfg, xs[i], dirs) then [ItemOf(xs[i])] else []
  {
    PrefixSnoc(xs, i);
  }

  // ---------------------------------------------------------------- breadcrumb

  /** The crumbs after the Home link: one per part, each linking to the parts so far. */
  function CrumbsOf(parts: seq<string>): seq<Crumb>
    decreases |parts|
  {
    if parts == [] then []
    else CrumbsOf(parts[..|parts| - 1]) + [Crumb(parts[|parts| - 1], Browse(JoinAll(parts)))]
  }

  function BreadcrumbOf(rel: string): Breadcrumb
  {
    if rel == "" then HomeOnly else Trail([Crumb("Home", Root)] + CrumbsOf(Split(rel, '/')))
  }

  /** The breadcrumb loop, which advances `current` one part at a time (server.py:59-69). */
  method BuildBreadcrumb(rel: string) returns (b: Breadcrumb)
    ensures rel == "" ==> b == HomeOnly
    ensures rel != "" ==>
      var parts := Split(rel, '/');
      b.Trail? && |b.crumbs| == |parts| + 1 && b.crumbs[0] == Crumb("Home", Root) &&
      forall i :: 1 <= i <= |parts| ==> b.crumbs[i] == Crumb(parts[i - 1], Browse(JoinAll(parts[..i])))
    ensures b == BreadcrumbOf(rel)
  {
    if rel == "" {
      return HomeOnly;
    }
    var parts := Split(rel, '/');
    var crumbs := [Crumb("Home", Root)];
    var current := "";
    for i := 0 to |parts|
      invariant crumbs == [Crumb("Home", Root)] + CrumbsOf(parts[..i])
      invariant current == if i == 0 then "" else JoinAll(parts[..i])
    {
      BreadcrumbStep(parts, i, current);
      current := if current != "" then Join(current, parts[i]) else parts[i];
      crumbs := crumbs + [Crumb(parts[i], Browse(current))];
    }
    assert parts[..|parts|] == parts;
    CrumbsShape(parts);
    AppendIndex([Crumb("Home", Root)], CrumbsOf(parts));
    return Trail(crumbs);
  }

  /** One turn of the breadcrumb loop: `current` becomes the join of one more part, and one crumb is added. */
  lemma BreadcrumbStep(parts: seq<string>, i: nat, current: string)
    requires i < |parts| && current == if i == 0 then "" else JoinAll(parts[..i])
    ensures var next := if current != "" then Join(current, parts[i]) else parts[i];
            next == JoinAll(parts[..i + 1]) &&
            CrumbsOf(parts[..i + 1]) == CrumbsOf(parts[..i]) + [Crumb(parts[i], Browse(next))]
  {
    PrefixSnoc(parts, i);
    CurrentStep(parts, i, current);
    CrumbsSnoc(parts[..i + 1]);
  }

  lemma CurrentStep(parts: seq<string>, i: nat, current: string)
    requires i < |parts| && current == if i == 0 then "" else JoinAll(parts[..i])
    requires parts[..i + 1][..i] == parts[..i] && parts[..i + 1][i] == parts[i]
    ensures (if current != "" then Join(current, parts[i]) else parts[i]) == JoinAll(parts[..i + 1])
  {
  }

  lemma CrumbsSnoc(q: seq<string>)
    requires |q| >= 1
    ensures CrumbsOf(q) == CrumbsOf(q[..|q| - 1]) + [Crumb(q[|q| - 1], Browse(JoinAll(q)))]
  {
  }

  lemma PrefixSnoc<T>(s: seq<T>, i: nat)
    requires i < |s|
    ensures |s[..i + 1]| == i + 1 && s[..i + 1][..i] == s[..i] && s[..i + 1][i] == s[i]
  {
  }

  /** There is one crumb per part, and crumb i links to the first i + 1 parts. */
  lemma {:induction false} CrumbsShape(parts: seq<string>)
    ensures |CrumbsOf(parts)| == |parts|
    ensures forall i :: 1 <= i <= |parts| ==> CrumbsOf(parts)[i - 1] == Crumb(parts[i - 1], Browse(JoinAll(parts[..i])))
    decreases |parts|
  {
    if parts != [] {
      var init := parts[..|parts| - 1];
      CrumbsShape(init);
      forall i | 1 <= i <= |parts|
        ensures CrumbsOf(parts)[i - 1] == Crumb(parts[i - 1], Browse(JoinAll(parts[..i])))
      {
        if i < |parts| {
          assert init[..i] == parts[..i];
        } else {
          assert parts[..i] == parts;
        }
      }
    }
  }

  // ---------------------------------------------------------------------- rows

  /** The path of an item relative to BASE_DIR. */
  function ItemPath(rel: string, name: string): string
  {
    if rel != "" then Join(rel, name) else name
  }

  /** Where the ".." row leads. */
  function ParentTarget(rel: string): Href
  {
    var parent := Dirname(rel);
    if parent != "" then Browse(parent) else Root
  }

  function RowOf(rel: string, it: Item): Row
  {
    var p := ItemPath(rel, it.name);
    if it.isDir then DirRow(it.name, Browse(p), it.mtime)
    else FileRow(it.name, View(p), SizeLabelOf(it.size), it.mtime, Download(p))
  }

  function ItemRows(rel: string, items: seq<Item>): seq<Row>
    decreases |items|
  {
    if items == [] then []
    else ItemRows(rel, items[..|items| - 1]) + [RowOf(rel, items[|items| - 1])]
  }

  function RowsOf(rel: string, items: seq<Item>): seq<Row>
  {
    (if rel != "" then [ParentRow(ParentTarget(rel))] else []) + ItemRows(rel, items)
  }

  /** The loop that accumulates the table rows (server.py:71-87). */
  method BuildRows(rel: string, items: seq<Item>) returns (rows: seq<Row>)
    ensures rows == RowsOf(rel, items)
  {
    rows := [];
    if rel != "" {
      var parent := Dirname(rel);
      var parentUrl := if parent != "" then Browse(parent) else Root;
      rows := rows + [ParentRow(parentUrl)];
    }
    ghost var head := rows;
    for i := 0 to |items|
      invariant rows == head + ItemRows(rel, items[..i])
    {
      var it := items[i];
      var itemPath := if rel != "" then Join(rel, it.name) else it.name;
      RowsStep(rel, items, i);
      if it.isDir {
        rows := rows + [DirRow(it.name, Browse(itemPath), it.mtime)];
      } else {
        var sizeStr := FormatSize(it.size);
        rows := rows + [FileRow(it.name, View(itemPath), sizeStr, it.mtime, Download(itemPath))];
      }
    }
    assert items[..|items|] == items;
  }

  lemma RowsStep(rel: string, items: seq<Item>, i: nat)
    requires i < |items|
    ensures ItemRows(rel, items[..i + 1]) == ItemRows(rel, items[..i]) + [RowOf(rel, items[i])]
  {
    PrefixSnoc(items, i);
  }

  /** One row per item, in the order of the items. */
  lemma {:induction false} ItemRowsShape(rel: string, items: seq<Item>)
    ensures |ItemRows(rel, items)| == |items|
    ensures forall i :: 0 <= i < |items| ==> ItemRows(rel, items)[i] == RowOf(rel, items[i])
    decreases |items|
  {
    if items != [] {
      var init := items[..|items| - 1];
      ItemRowsShape(rel, init);
      var rows := ItemRows(rel, items);
      assert rows == ItemRows(rel, init) + [RowOf(rel, items[|items| - 1])];
      forall i | 0 <= i < |items|
        ensures rows[i] == RowOf(rel, items[i])
      {
        if i < |init| {
          assert init[i] == items[i];
        }
      }
    }
  }

  // ------------------------------------------------------------------ the page

  /** `rel_path`: the directory relative to BASE_DIR, with "." turned into "". */
  function RelOf(cfg: Config, path: string): string
    requires path != ""
  {
    var r := RelPath(cfg.baseDir, path, cfg.baseDir);
    if r == "." then "" else r
  }

  /**
   * The page for the directory at `path`; None when an exception escapes
   * (`relpath` of an empty path, `listdir` of something that is not a directory).
   */
  function ListingOf(cfg: Config, fs: Node, path: string): Option<Page>
  {
    if path == "" then None
    else
      var rel := RelOf(cfg, path);
      match NodeAt(fs, path)
      case Some(Dir(_, _, listable, entries)) =>
        if !listable then Some(GenerateError("Access Denied"))
        else
          var items := ListedItems(cfg, entries);
          Some(Listing(if rel != "" then rel else "Root", BreadcrumbOf(rel),
                       if items != [] then Some(DownloadAll(rel)) else None,
                       RowsOf(rel, items)))
      case _ => None
  }

  /** `generate_directory_listing(path)` */
  method GenerateDirectoryListing(cfg: Config, fs: Node, path: string) returns (r: Option<Page>)
    ensures r == ListingOf(cfg, fs, path)
  {
    if path == "" {
      return None;
    }
    var rel := RelPath(cfg.baseDir, path, cfg.baseDir);
    if rel == "." {
      rel := "";
    }
    var node := NodeAt(fs, path);
    if node.None? || !node.value.Dir? {
      return None;
    }
    if !node.value.listable {
      return Some(GenerateError("Access Denied"));
    }
    var dirs, files := CollectItems(cfg, node.value.children);
    var items := dirs + files;
    var breadcrumb := BuildBreadcrumb(rel);
    var rows := BuildRows(rel, items);
    var downloadAll := if items != [] then Some(DownloadAll(rel)) else None;
    return Some(Listing(if rel != "" then rel else "Root", breadcrumb, downloadAll, rows));
  }

  // ------------------------------------------------------------ the items

  /** Every collected item comes from an entry that is kept. */
  lemma {:induction false} KeptFrom(cfg: Config, xs: seq<Node>, dirs: bool)
    ensures forall it :: it in KeptItems(cfg, xs, dirs) ==>
              exists k :: 0 <= k < |xs| && Keeps(cfg, xs[k], dirs) && ItemOf(xs[k]) == it
    decreases |xs|
  {
    if xs != [] {
      var init := xs[..|xs| - 1];
      KeptFrom(cfg, init, dirs);
      forall it | it in KeptItems(cfg, xs, dirs)
        ensures exists k :: 0 <= k < |xs| && Keeps(cfg, xs[k], dirs) && ItemOf(xs[k]) == it
      {
        if it in KeptItems(cfg, init, dirs) {
          var k :| 0 <= k < |init| && Keeps(cfg, init[k], dirs) && ItemOf(init[k]) == it;
          assert xs[k] == init[k];
        } else {
          assert Keeps(cfg, xs[|xs| - 1], dirs) && it == ItemOf(xs[|xs| - 1]);
        }
      }
    }
  }

  /** Every kept entry is collected. */
  lemma {:induction false} KeptAll(cfg: Config, xs: seq<Node>, dirs: bool)
    ensures forall k :: 0 <= k < |xs| && Keeps(cfg, xs[k], dirs) ==> ItemOf(xs[k]) in KeptItems(cfg, xs, dirs)
    decreases |xs|
  {
    if xs != [] {
      var init := xs[..|xs| - 1];
      KeptAll(cfg, init, dirs);
      forall k | 0 <= k < |xs| && Keeps(cfg, xs[k], dirs)
        ensures ItemOf(xs[k]) in KeptItems(cfg, xs, dirs)
      {
        if k < |init| {
          assert init[k] == xs[k];
        }
      }
    }
  }

  /** A bound on the keys of the entries bounds the keys of the collected items. */
  lemma {:induction false} KeptBounded(cfg: Config, xs: seq<Node>, dirs: bool, b: string)
    requires forall k :: 0 <= k < |xs| ==> LexLe(Key(xs[k]), b)
    ensures forall i :: 0 <= i < |KeptItems(cfg, xs, dirs)| ==> LexLe(LowerName(KeptItems(cfg, xs, dirs)[i]), b)
    decreases |xs|
  {
    if xs != [] {
      var init := xs[..|xs| - 1];
      assert forall k :: 0 <= k < |init| ==> init[k] == xs[k];
      KeptBounded(cfg, init, dirs, b);
    }
  }

  predicate ItemsSorted(items: seq<Item>)
  {
    forall i, j :: 0 <= i < j < |items| ==> LexLe(LowerName(items[i]), LowerName(items[j]))
  }

  /** Collecting from entries in key order gives items in key order. */
  lemma {:induction false} KeptSorted(cfg: Config, xs: seq<Node>, dirs: bool)
    requires SortedByKey(xs)
    ensures ItemsSorted(KeptItems(cfg, xs, dirs))
    decreases |xs|
  {
    if xs != [] {
      var init, last := xs[..|xs| - 1], xs[|xs| - 1];
      assert forall k :: 0 <= k < |init| ==> init[k] == xs[k];
      KeptSorted(cfg, init, dirs);
      assert xs == init + [last];
      if Keeps(cfg, last, dirs) {
        KeptBounded(cfg, init, dirs, Key(last));
        var r0 := KeptItems(cfg, init, dirs);
        var r := r0 + [ItemOf(last)];
        assert LowerName(ItemOf(last)) == Key(last);
        forall i, j | 0 <= i < j < |r|
          ensures LexLe(LowerName(r[i]), LowerName(r[j]))
        {
          assert r[i] == r0[i];
          if j < |r0| {
            assert r[j] == r0[j];
          }
        }
      }
    }
  }

  /** Each collected list holds only directories, or only files. */
  lemma KeptKind(cfg: Config, xs: seq<Node>, dirs: bool)
    ensures forall i :: 0 <= i < |KeptItems(cfg, xs, dirs)| ==> KeptItems(cfg, xs, dirs)[i].isDir == dirs
  {
    KeptFrom(cfg, xs, dirs);
    var r := KeptItems(cfg, xs, dirs);
    forall i | 0 <= i < |r|
      ensures r[i].isDir == dirs
    {
      assert r[i] in r;
    }
  }

  /** Every directory is listed before every file. */
  lemma ListedDirsFirst(cfg: Config, entries: seq<Node>)
    ensures var items := ListedItems(cfg, entries);
            forall i, j :: 0 <= i < j < |items| && items[j].isDir ==> items[i].isDir
  {
    var sorted := SortByKey(entries);
    var ds, fs := KeptItems(cfg, sorted, true), KeptItems(cfg, sorted, false);
    KeptKind(cfg, sorted, true);
    KeptKind(cfg, sorted, false);
    var items := ds + fs;
    assert forall k :: 0 <= k < |ds| ==> items[k] == ds[k];
    assert forall k :: |ds| <= k < |items| ==> items[k] == fs[k - |ds|];
  }

  /** Among the directories, and among the files, names ascend case-insensitively. */
  lemma ListedSorted(cfg: Config, entries: seq<Node>)
    ensures var items := ListedItems(cfg, entries);
            forall i, j :: 0 <= i < j < |items| && items[i].isDir == items[j].isDir ==>
              LexLe(LowerName(items[i]), LowerName(items[j]))
  {
    var sorted := SortByKey(entries);
    var ds, fs := KeptItems(cfg, sorted, true), KeptItems(cfg, sorted, false);
    KeptKind(cfg, sorted, true);
    KeptKind(cfg, sorted, false);
    KeptSorted(cfg, sorted, true);
    KeptSorted(cfg, sorted, false);
    var items := ds + fs;
    assert forall k :: 0 <= k < |ds| ==> items[k] == ds[k];
    assert forall k :: |ds| <= k < |items| ==> items[k] == fs[k - |ds|];
    forall i, j | 0 <= i < j < |ds|
      ensures LexLe(LowerName(items[i]), LowerName(items[j]))
    {
      assert items[i] == ds[i] && items[j] == ds[j];
    }
    forall i, j | |ds| <= i < j < |items|
      ensures LexLe(LowerName(items[i]), LowerName(items[j]))
    {
      assert items[i] == fs[i - |ds|] && items[j] == fs[j - |ds|];
    }
    forall i, j | 0 <= i < |ds| <= j < |items|
      ensures items[i].isDir && !items[j].isDir
    {
      assert items[i] == ds[i] && items[j] == fs[j - |ds|];
    }
  }

  /**
   * An entry whose `stat` succeeds is listed exactly when it passes the hidden filter
   * and its modification time converts to a date.
   */
  lemma ListedMembers(cfg: Config, entries: seq<Node>, n: Node)
    requires n in entries && !n.Broken?
    ensures ItemOf(n) in ListedItems(cfg, entries) <==> Visible(cfg, n.name) && ListDatable(cfg, n.mtime)
  {
    var sorted := SortByKey(entries);
    var ds, fs := KeptItems(cfg, sorted, true), KeptItems(cfg, sorted, false);
    SortedMembers(entries, n);
    var k :| 0 <= k < |sorted| && sorted[k] == n;
    if Visible(cfg, n.name) && ListDatable(cfg, n.mtime) {
      KeptAll(cfg, sorted, n.Dir?);
      assert Keeps(cfg, sorted[k], n.Dir?);
    }
    if ItemOf(n) in ds + fs {
      KeptFrom(cfg, sorted, true);
      KeptFrom(cfg, sorted, false);
      if ItemOf(n) in ds {
        var j :| 0 <= j < |sorted| && Keeps(cfg, sorted[j], true) && ItemOf(sorted[j]) == ItemOf(n);
        assert sorted[j].name == n.name && sorted[j].mtime == n.mtime;
      } else {
        var j :| 0 <= j < |sorted| && Keeps(cfg, sorted[j], false) && ItemOf(sorted[j]) == ItemOf(n);
        assert sorted[j].name == n.name && sorted[j].mtime == n.mtime;
      }
    }
  }

  /**
   * Only visible entries whose `stat` and date conversion succeed are listed, a directory with size 0;
   * with hidden files off, no listed name starts with '.'.
   */
  lemma ListedFrom(cfg: Config, entries: seq<Node>)
    ensures forall i :: 0 <= i < |ListedItems(cfg, entries)| ==> ComesFrom(cfg, entries, ListedItems(cfg, entries)[i])
    ensures forall i :: 0 <= i < |ListedItems(cfg, entries)| && ListedItems(cfg, entries)[i].isDir ==>
              ListedItems(cfg, entries)[i].size == 0
    ensures !cfg.showHidden ==> forall i :: 0 <= i < |ListedItems(cfg, entries)| ==> !IsHidden(ListedItems(cfg, entries)[i].name)
  {
    forall i | 0 <= i < |ListedItems(cfg, entries)|
      ensures ComesFrom(cfg, entries, ListedItems(cfg, entries)[i])
      ensures ListedItems(cfg, entries)[i].isDir ==> ListedItems(cfg, entries)[i].size == 0
      ensures !cfg.showHidden ==> !IsHidden(ListedItems(cfg, entries)[i].name)
    {
      var n := ListedItemFrom(cfg, entries, i);
    }
  }

  /** The item is the tuple of a visible entry whose `stat` and date conversion succeed. */
  predicate ComesFrom(cfg: Config, entries: seq<Node>, it: Item)
  {
    exists n :: n in entries && !n.Broken? && Visible(cfg, n.name) && ListDatable(cfg, n.mtime) && ItemOf(n) == it
  }

  /** The entry a listed item comes from. */
  lemma ListedItemFrom(cfg: Config, entries: seq<Node>, i: nat) returns (n: Node)
    requires i < |ListedItems(cfg, entries)|
    ensures n in entries && !n.Broken? && Visible(cfg, n.name) && ListDatable(cfg, n.mtime)
    ensures ItemOf(n) == ListedItems(cfg, entries)[i]
  {
    var sorted := SortByKey(entries);
    var ds, fs := KeptItems(cfg, sorted, true), KeptItems(cfg, sorted, false);
    var d := i < |ds|;
    InConcat(ds, fs, i);
    KeptFrom(cfg, sorted, d);
    var k :| 0 <= k < |sorted| && Keeps(cfg, sorted[k], d) && ItemOf(sorted[k]) == (ds + fs)[i];
    n := sorted[k];
    SortedMembers(entries, n);
  }

  lemma InConcat<T>(a: seq<T>, b: seq<T>, i: nat)
    requires i < |a + b|
    ensures i < |a| ==> (a + b)[i] in a
    ensures i >= |a| ==> (a + b)[i] in b
  {
    if i >= |a| {
      assert (a + b)[i] == b[i - |a|];
    }
  }

  // ---------------------------------------------------------------- the page

  /**
   * The ".." row comes first exactly when `rel_path` is non-empty; then one row
   * per listed item, in order.
   */
  lemma RowsLinks(rel: string, items: seq<Item>)
    ensures var rows := RowsOf(rel, items);
            (|rows| > 0 && rows[0].ParentRow?) <==> rel != ""
    ensures rel != "" ==> RowsOf(rel, items)[0] == ParentRow(ParentTarget(rel))
    ensures var offset := if rel != "" then 1 else 0;
            |RowsOf(rel, items)| == offset + |items|
    ensures var rows := RowsOf(rel, items);
            var offset := if rel != "" then 1 else 0;
            forall i :: offset <= i < |rows| ==> rows[i] == RowOf(rel, items[i - offset])
  {
    ItemRowsShape(rel, items);
    var head := if rel != "" then [ParentRow(ParentTarget(rel))] else [];
    AppendIndex(head, ItemRows(rel, items));
    if rel == "" && |items| > 0 {
      RowOfNotParent(rel, items[0]);
    }
  }

  lemma RowOfNotParent(rel: string, it: Item)
    ensures !RowOf(rel, it).ParentRow?
  {
  }

  /**
   * A directory is always answered with a page: its listing, or the "Access
   * Denied" error page when `os.listdir` raises. Anything else reaches no page.
   */
  lemma ListingOutcome(cfg: Config, fs: Node, path: string)
    ensures ListingOf(cfg, fs, path).Some? <==> path != "" && IsDir(fs, path)
    ensures ListingOf(cfg, fs, path).Some? ==>
              var page := ListingOf(cfg, fs, path).value;
              (page.ErrorPage? <==> !NodeAt(fs, path).value.listable) &&
              (page.ErrorPage? ==> page.message == "Access Denied" && page.back == Root) &&
              (page.Listing? ==> page.title == (if RelOf(cfg, path) != "" then RelOf(cfg, path) else "Root"))
  {
  }

  /**
   * On a listing page the ".." row leads to "/" exactly when `rel_path` has no
   * parent, and the ZIP link for `rel_path` is there exactly when some item is listed.
   */
  lemma ListingLinks(cfg: Config, fs: Node, path: string)
    requires ListingOf(cfg, fs, path).Some? && ListingOf(cfg, fs, path).value.Listing?
    ensures path != "" && IsDir(fs, path)
    ensures var page := ListingOf(cfg, fs, path).value;
            var rel := RelOf(cfg, path);
            var offset := if rel != "" then 1 else 0;
            page.rows == RowsOf(rel, ListedItems(cfg, NodeAt(fs, path).value.children)) &&
            (rel != "" ==> (page.rows[0].target == Root <==> Dirname(rel) == "")) &&
            (page.zipLink.Some? <==> |page.rows| > offset) &&
            (page.zipLink.Some? ==> page.zipLink.value == DownloadAll(rel))
  {
    var rel := RelOf(cfg, path);
    RowsLinks(rel, ListedItems(cfg, NodeAt(fs, path).value.children));
  }

  /** Each piece of a list of segments, and each prefix of it, is a segment list too. */
  lemma SegmentsPrefix(parts: seq<string>, i: nat)
    requires AllSegments(parts) && i <= |parts|
    ensures AllSegments(parts[..i])
  {
    assert forall k :: 0 <= k < i ==> parts[..i][k] == parts[k];
  }

  /**
   * For a `rel_path` of k segments the breadcrumb has k + 1 links: Home to "/",
   * then segment i to the first i segments; the last one leads to `rel_path` itself.
   */
  lemma BreadcrumbSegments(parts: seq<string>)
    requires |parts| >= 1 && AllSegments(parts)
    ensures var b := BreadcrumbOf(JoinWith('/', parts));
            b.Trail? && |b.crumbs| == |parts| + 1 && b.crumbs[0] == Crumb("Home", Root) &&
            (forall i :: 1 <= i <= |parts| ==>
               b.crumbs[i] == Crumb(parts[i - 1], Browse(JoinWith('/', parts[..i])))) &&
            b.crumbs[|parts|].target == Browse(JoinWith('/', parts))
  {
    var rel := JoinWith('/', parts);
    JoinSegmentsEnds(parts);
    SplitJoin(parts, '/');
    CrumbsShape(parts);
    var b := BreadcrumbOf(rel);
    forall i | 1 <= i <= |parts|
      ensures b.crumbs[i] == Crumb(parts[i - 1], Browse(JoinWith('/', parts[..i])))
    {
      SegmentsPrefix(parts, i);
      JoinAllSegments(parts[..i]);
    }
    assert parts[..|parts|] == parts;
  }

  /** At BASE_DIR itself the title is "Root", the breadcrumb is plain "Home" and there is no ".." row. */
  lemma ListingAtBase(cfg: Config)
    requires ValidConfig(cfg)
    ensures RelOf(cfg, cfg.baseDir) == "" && BreadcrumbOf(RelOf(cfg, cfg.baseDir)) == HomeOnly
    ensures forall items :: RowsOf(RelOf(cfg, cfg.baseDir), items) == ItemRows("", items)
  {
    RelPathSelf(cfg.baseDir);
  }

  /**
   * Below BASE_DIR, `rel_path` is the path of names that was descended, the
   * breadcrumb has one link per name, and ".." leads one name up (to "/" from
   * the first level).
   */
  lemma ListingBelow(cfg: Config, parts: seq<string>)
    requires ValidConfig(cfg) && AllNames(parts) && |parts| >= 1
    ensures var path := Join(cfg.baseDir, JoinWith('/', parts));
            path != "" && RelOf(cfg, path) == JoinWith('/', parts) &&
            |BreadcrumbOf(RelOf(cfg, path)).crumbs| == |parts| + 1 &&
            ParentTarget(RelOf(cfg, path)) ==
              (if |parts| == 1 then Root else Browse(JoinWith('/', parts[..|parts| - 1])))
  {
    RelBelow(cfg, parts);
    BreadcrumbSegments(parts);
    ParentBelow(parts);
  }

  lemma RelBelow(cfg: Config, parts: seq<string>)
    requires ValidConfig(cfg) && AllNames(parts) && |parts| >= 1
    ensures var path := Join(cfg.baseDir, JoinWith('/', parts));
            path != "" && RelOf(cfg, path) == JoinWith('/', parts)
  {
    var rel := JoinWith('/', parts);
    RelPathBelow(cfg.baseDir, parts);
    ResolveDescend(cfg.baseDir, parts);
    SplitJoin(parts, '/');
    SplitNoSep(".", '/');
    assert rel != ".";
  }

  lemma ParentBelow(parts: seq<string>)
    requires AllNames(parts) && |parts| >= 1
    ensures ParentTarget(JoinWith('/', parts)) ==
              (if |parts| == 1 then Root else Browse(JoinWith('/', parts[..|parts| - 1])))
  {
    DirnameJoin(parts);
    if |parts| > 1 {
      var init := parts[..|parts| - 1];
      SegmentsPrefix(parts, |parts| - 1);
      JoinSegmentsEnds(init);
    }
  }

}
