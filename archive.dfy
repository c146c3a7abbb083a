/**
 * `create_zip` (server.py:240-262): the list of entries the archive receives,
 * in order, each with its archive name, the path it is read from and its bytes.
 * `os.walk` is the CPython one: it scans a directory, hands its sub-directories
 * and other entries to the caller, then descends into the sub-directories that
 * the caller left in the list, in order, through an explicit stack.
 */
module Archive {
  import opened Wrappers
  import opened Seqs
  import opened PyStr
  import opened PosixPath
  import opened Config
  import opened FileSystem

  /** One entry written into the archive. */
  datatype ArchiveEntry = ArchiveEntry(arcName: string, source: string, data: Bytes)

  /** A file the walk archives: its components below the start directory and its bytes. */
  datatype Planned = Planned(comps: seq<string>, data: Bytes)

  // ---------------------------------------------------------------------------
  // What the walk archives, by recursion over the tree
  // ---------------------------------------------------------------------------

  /** 1980-01-01 and 2108-01-01, 00:00, as seconds since the epoch. */
  const ZipFirstDate := 315532800
  const ZipPastLastDate := 4354819200

  /**
   * The archive is opened with strict timestamps, so `zf.write` dates a file by
   * its local modification time and raises when the year is before 1980
   * (`ZipInfo` refuses it) or after 2107 (the 16-bit date of the local header
   * overflows).
   */
  predicate ZipDatable(cfg: Config, mtime: int)
  {
    ZipFirstDate <= mtime + cfg.utcOffset < ZipPastLastDate
  }

  /**
   * `zf.write` succeeds: a regular file whose bytes can be read and whose
   * modification time a ZIP header can hold. Any other entry raises and is skipped.
   */
  predicate Writable(cfg: Config, n: Node)
  {
    n.File? && n.content.Some? && ZipDatable(cfg, n.mtime)
  }

  /** A non-directory entry the loop over `files` writes into the archive. */
  predicate Archived(cfg: Config, n: Node)
  {
    !n.Dir? && Visible(cfg, n.name) && Writable(cfg, n)
  }

  /** The entries `os.walk` classifies as directories, in order. */
  function DirsOf(cs: seq<Node>): seq<Node>
  {
    if cs == [] then [] else (if cs[0].Dir? then [cs[0]] else []) + DirsOf(cs[1..])
  }

  /** The entries `os.walk` hands out as files: everything that is not a directory. */
  function NonDirsOf(cs: seq<Node>): seq<Node>
  {
    if cs == [] then [] else (if cs[0].Dir? then [] else [cs[0]]) + NonDirsOf(cs[1..])
  }

  /** `[d for d in dirs if not d.startswith('.')]` */
  function NotHidden(ds: seq<Node>): seq<Node>
  {
    if ds == [] then [] else (if IsHidden(ds[0].name) then [] else [ds[0]]) + NotHidden(ds[1..])
  }

  /** The directories left after the in-place prune. */
  function Pruned(cfg: Config, ds: seq<Node>): seq<Node>
  {
    if cfg.showHidden then ds else NotHidden(ds)
  }

  /** `[f(x) for x in xs]` */
  function MapSeq<A, B>(f: A -> B, xs: seq<A>): (r: seq<B>)
    ensures |r| == |xs|
    decreases |xs|
  {
    if xs == [] then [] else [f(xs[0])] + MapSeq(f, xs[1..])
  }

  /** Prefix every planned file with the components `pre`. */
  function Prefixed(pre: seq<string>, ps: seq<Planned>): seq<Planned>
  {
    MapSeq((p: Planned) => Planned(pre + p.comps, p.data), ps)
  }

  /** The files of one directory that the loop over `files` writes, in order. */
  function FilesHere(cfg: Config, files: seq<Node>): seq<Planned>
    decreases |files|
  {
    if files == [] then []
    else
      var last := files[|files| - 1];
      FilesHere(cfg, files[..|files| - 1]) +
      (if Archived(cfg, last) then [Planned([last.name], last.content.value)] else [])
  }

  /**
   * Everything the walk archives below `n`, in order: its own files, then each
   * visible sub-directory in turn. A non-directory or a directory that cannot be
   * listed yields nothing (`os.walk` ignores the error).
   */
  function WalkPlan(cfg: Config, n: Node): seq<Planned>
    decreases n, 1
  {
    if n.Dir? && n.listable then FilesHere(cfg, NonDirsOf(n.children)) + SubdirPlans(cfg, n.children) else []
  }

  function SubdirPlans(cfg: Config, cs: seq<Node>): seq<Planned>
    decreases cs, 0
  {
    if cs == [] then []
    else
      (if cs[0].Dir? && Visible(cfg, cs[0].name) then Prefixed([cs[0].name], WalkPlan(cfg, cs[0])) else []) +
      SubdirPlans(cfg, cs[1..])
  }

  /**
   * An independent statement of what is archived: the file at `comps` below `n`
   * is reached through listable directories, every component is visible, and
   * the file can be read, with bytes `data`, and dated in a ZIP header.
   */
  predicate Archivable(cfg: Config, n: Node, comps: seq<string>, data: Bytes)
    decreases comps
  {
    n.Dir? && n.listable && |comps| >= 1 && Visible(cfg, comps[0]) &&
    if |comps| == 1 then
      exists c :: c in n.children && c.name == comps[0] && Writable(cfg, c) && c.content.value == data
    else
      exists c :: c in n.children && c.name == comps[0] && c.Dir? && Archivable(cfg, c, comps[1..], data)
  }

  // ---------------------------------------------------------------------------
  // Paths and names
  // ---------------------------------------------------------------------------

  /** The path the walk builds for `comps` below `start`: `os.path.join(root, name)` at each level. */
  function Under(start: string, comps: seq<string>): (r: string)
    ensures start != "" ==> r != ""
    decreases |comps|
  {
    if comps == [] then start else Join(Under(start, comps[..|comps| - 1]), comps[|comps| - 1])
  }

  /** `start_path`: `rel_path` is joined onto the root with no containment check. */
  function StartPath(cfg: Config, rel: string): string
  {
    if rel != "" then Join(cfg.baseDir, rel) else cfg.baseDir
  }

  /** `arc_root` */
  function ArcRoot(cfg: Config, rel: string): string
  {
    if rel != "" then Basename(rel) else Basename(cfg.baseDir)
  }

  /** A path that is not empty, as `os.path.relpath` demands. */
  type NonEmptyPath = s: string | s != "" witness "/"

  /** The entry written for a planned file: `arc_root` joined with the path relative to `start_path`. */
  function EntryOf(cfg: Config, start: NonEmptyPath, arcRoot: string, p: Planned): ArchiveEntry
  {
    var path := Under(start, p.comps);
    ArchiveEntry(Join(arcRoot, RelPath(cfg.baseDir, path, start)), path, p.data)
  }

  function EntriesFor(cfg: Config, start: NonEmptyPath, arcRoot: string, ps: seq<Planned>): seq<ArchiveEntry>
  {
    MapSeq((p: Planned) => EntryOf(cfg, start, arcRoot, p), ps)
  }

  /**
   * The planned files of `create_zip(BASE_DIR, rel)`. `os.walk` receives the
   * start path as joined, not normalised, so the operating system resolves it;
   * nothing is planned when that fails.
   */
  function Plan(cfg: Config, fs: Node, rel: string): seq<Planned>
  {
    match ResolvedAt(fs, StartPath(cfg, rel))
    case None => []
    case Some(n) => WalkPlan(cfg, n)
  }

  /** The entries of `create_zip(BASE_DIR, rel)`, in the order they are written. */
  function ArchivePlan(cfg: Config, fs: Node, rel: string): seq<ArchiveEntry>
    requires ValidConfig(cfg)
  {
    StartAbsolute(cfg, rel);
    var start: NonEmptyPath := StartPath(cfg, rel);
    EntriesFor(cfg, start, ArcRoot(cfg, rel), Plan(cfg, fs, rel))
  }

  // ---------------------------------------------------------------------------
  // The walk as the source performs it
  // ---------------------------------------------------------------------------

  /** A directory on `os.walk`'s stack: its path, its components below the start, and the node. */
  datatype Frame = Frame(path: string, comps: seq<string>, node: Node)

  /** What the frames on the stack still archive; the top of the stack is its last frame. */
  function StackPlan(cfg: Config, stack: seq<Frame>): seq<Planned>
    decreases |stack|
  {
    if stack == [] then []
    else
      var top := stack[|stack| - 1];
      Prefixed(top.comps, WalkPlan(cfg, top.node)) + StackPlan(cfg, stack[..|stack| - 1])
  }

  /** What the sub-directories `ds` archive, in order, below the components `pre`. */
  function DirsPlan(cfg: Config, pre: seq<string>, ds: seq<Node>): seq<Planned>
    decreases |ds|
  {
    if ds == [] then []
    else Prefixed(pre + [ds[0].name], WalkPlan(cfg, ds[0])) + DirsPlan(cfg, pre, ds[1..])
  }

  function Size(n: Node): nat
    decreases n, 1
  {
    if n.Dir? then 1 + NodesSize(n.children) else 1
  }

  function NodesSize(cs: seq<Node>): nat
    decreases cs, 0
  {
    if cs == [] then 0 else Size(cs[0]) + NodesSize(cs[1..])
  }

  function FramesSize(stack: seq<Frame>): nat
    decreases |stack|
  {
    if stack == [] then 0 else FramesSize(stack[..|stack| - 1]) + Size(stack[|stack| - 1].node)
  }

  /**
   * `create_zip(BASE_DIR, rel)`: walk from the start path, prune hidden
   * directories, skip hidden files, and write every other file under
   * `arc_root/relpath`; a write that raises is passed over.
   */
  method CreateZip(cfg: Config, fs: Node, rel: string) returns (entries: seq<ArchiveEntry>)
    requires ValidConfig(cfg)
    ensures entries == ArchivePlan(cfg, fs, rel)
  {
    StartAbsolute(cfg, rel);
    var start: NonEmptyPath := StartPath(cfg, rel);
    var arcRoot := ArcRoot(cfg, rel);
    ghost var total := Plan(cfg, fs, rel);
    entries := [];
    var stack: seq<Frame> := [];
    var found := ResolvedAt(fs, start);
    if found.Some? {
      stack := [Frame(start, [], found.value)];
      PrefixedNil(WalkPlan(cfg, found.value));
      assert StackPlan(cfg, stack) == Prefixed([], WalkPlan(cfg, found.value)) + StackPlan(cfg, []);
      NilSides(WalkPlan(cfg, found.value));
    }
    ghost var done: seq<Planned> := [];
    while stack != []
      invariant forall f :: f in stack ==> f.path == Under(start, f.comps)
      invariant entries == EntriesFor(cfg, start, arcRoot, done)
      invariant done + StackPlan(cfg, stack) == total
      decreases FramesSize(stack)
    {
      var top := stack[|stack| - 1];
      StackPop(cfg, stack);
      stack := stack[..|stack| - 1];
      ghost var here := Prefixed(top.comps, WalkPlan(cfg, top.node));
      Assoc3(done, here, StackPlan(cfg, stack));
      if !top.node.Dir? || !top.node.listable {
        // scandir fails on a non-directory or on a directory it may not read
        assert here == [];
        NilSides(StackPlan(cfg, stack));
        continue;
      }
      ExpandFrame(cfg, top);
      var dirs := DirsOf(top.node.children);
      var files := NonDirsOf(top.node.children);
      DirsOfSmaller(top.node.children);
      if !cfg.showHidden {
        NotHiddenSmaller(dirs);
        dirs := NotHidden(dirs);
      }
      var written := WriteFiles(cfg, start, arcRoot, top, files);
      ghost var planned := Prefixed(top.comps, FilesHere(cfg, files));
      EntriesAppend(cfg, start, arcRoot, done, planned);
      entries := entries + written;
      ghost var rest := stack;
      stack := PushDirs(cfg, start, top, dirs, stack);
      assert here == planned + DirsPlan(cfg, top.comps, dirs);
      Assoc3(planned, DirsPlan(cfg, top.comps, dirs), StackPlan(cfg, rest));
      Assoc3(done, here, StackPlan(cfg, rest));
      Assoc3(done, planned, StackPlan(cfg, stack));
      done := done + planned;
    }
    NilSides(done);
  }

  /** The loop over `files` of one directory: skip hidden names, write each other entry that can be read. */
  method WriteFiles(cfg: Config, start: NonEmptyPath, arcRoot: string, top: Frame, files: seq<Node>)
    returns (written: seq<ArchiveEntry>)
    requires top.path == Under(start, top.comps)
    ensures written == EntriesFor(cfg, start, arcRoot, Prefixed(top.comps, FilesHere(cfg, files)))
  {
    written := [];
    for i := 0 to |files|
      invariant written == EntriesFor(cfg, start, arcRoot, Prefixed(top.comps, FilesHere(cfg, files[..i])))
    {
      var file := files[i];
      if !cfg.showHidden && IsHidden(file.name) {
        WriteSkipped(cfg, start, arcRoot, top, files, i);
        continue;
      }
      JoinNonEmpty(top.path, file.name);
      var filePath := Join(top.path, file.name);
      var arcName := Join(arcRoot, RelPath(cfg.baseDir, filePath, start));
      // zf.write raises on an entry it cannot read or date; the error is swallowed
      if file.File? && file.content.Some? && ZipDatable(cfg, file.mtime) {
        WriteAdded(cfg, start, arcRoot, top, files, i);
        written := written + [ArchiveEntry(arcName, filePath, file.content.value)];
      } else {
        WriteSkipped(cfg, start, arcRoot, top, files, i);
      }
    }
    assert files[..|files|] == files;
  }

  /** `os.walk` pushes the sub-directories left in `dirs` in reverse, so that it visits them in order. */
  method PushDirs(cfg: Config, start: string, top: Frame, dirs: seq<Node>, stack0: seq<Frame>) returns (stack: seq<Frame>)
    requires top.path == Under(start, top.comps)
    requires forall f :: f in stack0 ==> f.path == Under(start, f.comps)
    ensures forall f :: f in stack ==> f.path == Under(start, f.comps)
    ensures StackPlan(cfg, stack) == DirsPlan(cfg, top.comps, dirs) + StackPlan(cfg, stack0)
    ensures FramesSize(stack) == FramesSize(stack0) + NodesSize(dirs)
  {
    stack := stack0;
    var j := |dirs|;
    while j > 0
      invariant 0 <= j <= |dirs|
      invariant forall f :: f in stack ==> f.path == Under(start, f.comps)
      invariant StackPlan(cfg, stack) == DirsPlan(cfg, top.comps, dirs[j..]) + StackPlan(cfg, stack0)
      invariant FramesSize(stack) == FramesSize(stack0) + NodesSize(dirs[j..])
    {
      j := j - 1;
      var f := Frame(Join(top.path, dirs[j].name), top.comps + [dirs[j].name], dirs[j]);
      UnderSnoc(start, top.comps, dirs[j].name);
      PushStep(cfg, top.comps, dirs, j, stack, stack0, f);
      stack := stack + [f];
    }
    assert dirs[0..] == dirs;
  }

  // ---------------------------------------------------------------------------
  // Bookkeeping for the walk's loop
  // ---------------------------------------------------------------------------

  lemma {:induction false} MapAppend<A, B>(f: A -> B, xs: seq<A>, ys: seq<A>)
    ensures MapSeq(f, xs + ys) == MapSeq(f, xs) + MapSeq(f, ys)
    decreases |xs|
  {
    if xs == [] {
      NilSides(ys);
      NilSides(MapSeq(f, ys));
    } else {
      MapAppend(f, xs[1..], ys);
      HeadTailAppend(xs, ys);
      ConsAssoc(f(xs[0]), MapSeq(f, xs[1..]), MapSeq(f, ys));
    }
  }


  lemma {:induction false} PrefixedNil(ps: seq<Planned>)
    ensures Prefixed([], ps) == ps
    decreases |ps|
  {
    if ps != [] {
      PrefixedNil(ps[1..]);
      assert [] + ps[0].comps == ps[0].comps;
    }
  }

  /** The walk starts from an absolute path, whatever `rel_path` is. */
  lemma StartAbsolute(cfg: Config, rel: string)
    requires ValidConfig(cfg)
    ensures StartsWith(StartPath(cfg, rel), "/") && StartPath(cfg, rel) != ""
  {
    var base := cfg.baseDir;
    assert base[0] == '/';
    var start := StartPath(cfg, rel);
    if !StartsWith(rel, "/") {
      assert start[0] == base[0];
    }
  }

  lemma PrefixedAppend(pre: seq<string>, a: seq<Planned>, b: seq<Planned>)
    ensures Prefixed(pre, a + b) == Prefixed(pre, a) + Prefixed(pre, b)
  {
    MapAppend((p: Planned) => Planned(pre + p.comps, p.data), a, b);
  }

  lemma {:induction false} PrefixedTwice(pre: seq<string>, name: string, ps: seq<Planned>)
    ensures Prefixed(pre, Prefixed([name], ps)) == Prefixed(pre + [name], ps)
    decreases |ps|
  {
    if ps != [] {
      PrefixedTwice(pre, name, ps[1..]);
      assert pre + ([name] + ps[0].comps) == pre + [name] + ps[0].comps;
    }
  }

  lemma UnderSnoc(start: string, comps: seq<string>, name: string)
    ensures Under(start, comps + [name]) == Join(Under(start, comps), name)
  {
    assert (comps + [name])[..|comps|] == comps;
  }

  /** A file of the loop over `files` that is archived adds its entry after those written before it. */
  lemma WriteAdded(cfg: Config, start: NonEmptyPath, arcRoot: string, top: Frame, files: seq<Node>, i: nat)
    requires i < |files| && top.path == Under(start, top.comps) && Archived(cfg, files[i])
    ensures var f := files[i];
            var path := Join(top.path, f.name);
            EntriesFor(cfg, start, arcRoot, Prefixed(top.comps, FilesHere(cfg, files[..i + 1]))) ==
            EntriesFor(cfg, start, arcRoot, Prefixed(top.comps, FilesHere(cfg, files[..i]))) +
              [ArchiveEntry(Join(arcRoot, RelPath(cfg.baseDir, path, start)), path, f.content.value)]
  {
    var f := files[i];
    var planned := Prefixed(top.comps, FilesHere(cfg, files[..i]));
    FilesStep(cfg, top.comps, files, i);
    EntryAt(cfg, start, arcRoot, top, f.name, f.content.value);
    EntriesSnoc(cfg, start, arcRoot, planned, Planned(top.comps + [f.name], f.content.value));
  }

  /** A file of the loop over `files` that is skipped adds nothing. */
  lemma WriteSkipped(cfg: Config, start: NonEmptyPath, arcRoot: string, top: Frame, files: seq<Node>, i: nat)
    requires i < |files| && !Archived(cfg, files[i])
    ensures EntriesFor(cfg, start, arcRoot, Prefixed(top.comps, FilesHere(cfg, files[..i + 1]))) ==
            EntriesFor(cfg, start, arcRoot, Prefixed(top.comps, FilesHere(cfg, files[..i])))
  {
    FilesStep(cfg, top.comps, files, i);
    NilSides(Prefixed(top.comps, FilesHere(cfg, files[..i])));
  }

  lemma JoinNonEmpty(a: string, b: string)
    requires a != ""
    ensures Join(a, b) != ""
  {
  }

  /** The entry of the file `name` in the directory of `top`: read from `os.path.join(root, name)`. */
  lemma EntryAt(cfg: Config, start: NonEmptyPath, arcRoot: string, top: Frame, name: string, data: Bytes)
    requires top.path == Under(start, top.comps)
    ensures var path := Join(top.path, name);
            EntryOf(cfg, start, arcRoot, Planned(top.comps + [name], data)) ==
            ArchiveEntry(Join(arcRoot, RelPath(cfg.baseDir, path, start)), path, data)
  {
    UnderSnoc(start, top.comps, name);
  }

  lemma EntriesAppend(cfg: Config, start: NonEmptyPath, arcRoot: string, ps: seq<Planned>, qs: seq<Planned>)
    ensures EntriesFor(cfg, start, arcRoot, ps + qs) == EntriesFor(cfg, start, arcRoot, ps) + EntriesFor(cfg, start, arcRoot, qs)
  {
    MapAppend((p: Planned) => EntryOf(cfg, start, arcRoot, p), ps, qs);
  }

  lemma EntriesSnoc(cfg: Config, start: NonEmptyPath, arcRoot: string, ps: seq<Planned>, p: Planned)
    ensures EntriesFor(cfg, start, arcRoot, ps + [p]) == EntriesFor(cfg, start, arcRoot, ps) + [EntryOf(cfg, start, arcRoot, p)]
  {
    EntriesAppend(cfg, start, arcRoot, ps, [p]);
  }

  /** One more file of the loop over `files`: planned exactly when it is archived. */
  lemma FilesStep(cfg: Config, pre: seq<string>, files: seq<Node>, i: nat)
    requires i < |files|
    ensures Prefixed(pre, FilesHere(cfg, files[..i + 1])) ==
            Prefixed(pre, FilesHere(cfg, files[..i])) +
            (if Archived(cfg, files[i]) then [Planned(pre + [files[i].name], files[i].content.value)] else [])
  {
    FilesHereSnoc(cfg, files, i);
    var x := Planned([files[i].name], if files[i].File? && files[i].content.Some? then files[i].content.value else []);
    PrefixedAppend(pre, FilesHere(cfg, files[..i]), [x]);
    assert Prefixed(pre, [x]) == [Planned(pre + x.comps, x.data)];
    PrefixedAppend(pre, FilesHere(cfg, files[..i]), []);
    assert FilesHere(cfg, files[..i]) + [] == FilesHere(cfg, files[..i]);
  }

  /** Pushing the frame of `ds[j]` extends what the stack archives by that directory's plan. */
  lemma PushStep(cfg: Config, pre: seq<string>, ds: seq<Node>, j: nat, stack: seq<Frame>, stack0: seq<Frame>, f: Frame)
    requires j < |ds| && f.comps == pre + [ds[j].name] && f.node == ds[j]
    requires StackPlan(cfg, stack) == DirsPlan(cfg, pre, ds[j + 1..]) + StackPlan(cfg, stack0)
    requires FramesSize(stack) == FramesSize(stack0) + NodesSize(ds[j + 1..])
    ensures StackPlan(cfg, stack + [f]) == DirsPlan(cfg, pre, ds[j..]) + StackPlan(cfg, stack0)
    ensures FramesSize(stack + [f]) == FramesSize(stack0) + NodesSize(ds[j..])
  {
    StackPush(cfg, stack, f);
    DirsPlanHead(cfg, pre, ds, j);
    NodesSizeHead(ds, j);
    Assoc3(Prefixed(f.comps, WalkPlan(cfg, f.node)), DirsPlan(cfg, pre, ds[j + 1..]), StackPlan(cfg, stack0));
  }

  lemma FilesHereSnoc(cfg: Config, files: seq<Node>, i: nat)
    requires i < |files|
    ensures FilesHere(cfg, files[..i + 1]) ==
            FilesHere(cfg, files[..i]) + (if Archived(cfg, files[i]) then [Planned([files[i].name], files[i].content.value)] else [])
  {
    assert files[..i + 1][..i] == files[..i];
  }

  lemma StackPush(cfg: Config, stack: seq<Frame>, f: Frame)
    ensures StackPlan(cfg, stack + [f]) == Prefixed(f.comps, WalkPlan(cfg, f.node)) + StackPlan(cfg, stack)
    ensures FramesSize(stack + [f]) == FramesSize(stack) + Size(f.node)
  {
    assert (stack + [f])[..|stack|] == stack;
  }

  lemma NotHiddenCons(c: Node, ds: seq<Node>)
    ensures NotHidden([c] + ds) == (if IsHidden(c.name) then [] else [c]) + NotHidden(ds)
  {
    assert ([c] + ds)[1..] == ds;
  }

  lemma NodesSizeCons(c: Node, ds: seq<Node>)
    ensures NodesSize([c] + ds) == Size(c) + NodesSize(ds)
  {
    assert ([c] + ds)[1..] == ds;
  }

  lemma DirsPlanCons(cfg: Config, pre: seq<string>, c: Node, ds: seq<Node>)
    ensures DirsPlan(cfg, pre, [c] + ds) == Prefixed(pre + [c.name], WalkPlan(cfg, c)) + DirsPlan(cfg, pre, ds)
  {
    assert ([c] + ds)[1..] == ds;
  }

  /** The first child decides whether the pruned directory list gains a head. */
  lemma PrunedStep(cfg: Config, cs: seq<Node>)
    requires cs != []
    ensures Pruned(cfg, DirsOf(cs)) ==
            (if cs[0].Dir? && Visible(cfg, cs[0].name) then [cs[0]] else []) + Pruned(cfg, DirsOf(cs[1..]))
  {
    var c := cs[0];
    if c.Dir? {
      assert DirsOf(cs) == [c] + DirsOf(cs[1..]);
      NotHiddenCons(c, DirsOf(cs[1..]));
    } else {
      assert DirsOf(cs) == DirsOf(cs[1..]);
    }
  }

  lemma {:induction false} SubdirsPlanned(cfg: Config, pre: seq<string>, cs: seq<Node>)
    ensures Prefixed(pre, SubdirPlans(cfg, cs)) == DirsPlan(cfg, pre, Pruned(cfg, DirsOf(cs)))
    decreases |cs|
  {
    if cs != [] {
      SubdirsPlanned(cfg, pre, cs[1..]);
      PrunedStep(cfg, cs);
      var c := cs[0];
      var tail := SubdirPlans(cfg, cs[1..]);
      if c.Dir? && Visible(cfg, c.name) {
        var head := Prefixed([c.name], WalkPlan(cfg, c));
        assert SubdirPlans(cfg, cs) == head + tail;
        PrefixedAppend(pre, head, tail);
        PrefixedTwice(pre, c.name, WalkPlan(cfg, c));
        DirsPlanCons(cfg, pre, c, Pruned(cfg, DirsOf(cs[1..])));
      } else {
        assert SubdirPlans(cfg, cs) == tail;
        assert Pruned(cfg, DirsOf(cs)) == Pruned(cfg, DirsOf(cs[1..]));
      }
    }
  }

  /** What a listable directory on the stack archives: its files, then its pruned sub-directories. */
  lemma ExpandFrame(cfg: Config, f: Frame)
    requires f.node.Dir? && f.node.listable
    ensures Prefixed(f.comps, WalkPlan(cfg, f.node)) ==
            Prefixed(f.comps, FilesHere(cfg, NonDirsOf(f.node.children))) +
            DirsPlan(cfg, f.comps, Pruned(cfg, DirsOf(f.node.children)))
  {
    PrefixedAppend(f.comps, FilesHere(cfg, NonDirsOf(f.node.children)), SubdirPlans(cfg, f.node.children));
    SubdirsPlanned(cfg, f.comps, f.node.children);
  }

  lemma {:induction false} DirsOfSmaller(cs: seq<Node>)
    ensures NodesSize(DirsOf(cs)) <= NodesSize(cs)
    decreases |cs|
  {
    if cs != [] {
      DirsOfSmaller(cs[1..]);
      if cs[0].Dir? {
        assert DirsOf(cs) == [cs[0]] + DirsOf(cs[1..]);
        NodesSizeCons(cs[0], DirsOf(cs[1..]));
      } else {
        assert DirsOf(cs) == DirsOf(cs[1..]);
      }
    }
  }

  lemma {:induction false} NotHiddenSmaller(ds: seq<Node>)
    ensures NodesSize(NotHidden(ds)) <= NodesSize(ds)
    decreases |ds|
  {
    if ds != [] {
      NotHiddenSmaller(ds[1..]);
      if IsHidden(ds[0].name) {
        assert NotHidden(ds) == NotHidden(ds[1..]);
      } else {
        assert NotHidden(ds) == [ds[0]] + NotHidden(ds[1..]);
        NodesSizeCons(ds[0], NotHidden(ds[1..]));
      }
    }
  }

  lemma NodesSizeHead(ds: seq<Node>, j: nat)
    requires j < |ds|
    ensures NodesSize(ds[j..]) == Size(ds[j]) + NodesSize(ds[j + 1..])
  {
    assert ds[j..][1..] == ds[j + 1..];
  }

  lemma DirsPlanHead(cfg: Config, pre: seq<string>, ds: seq<Node>, j: nat)
    requires j < |ds|
    ensures DirsPlan(cfg, pre, ds[j..]) == Prefixed(pre + [ds[j].name], WalkPlan(cfg, ds[j])) + DirsPlan(cfg, pre, ds[j + 1..])
  {
    assert ds[j..][1..] == ds[j + 1..];
  }

  lemma StackPop(cfg: Config, stack: seq<Frame>)
    requires stack != []
    ensures StackPlan(cfg, stack) == Prefixed(stack[|stack| - 1].comps, WalkPlan(cfg, stack[|stack| - 1].node)) + StackPlan(cfg, stack[..|stack| - 1])
    ensures FramesSize(stack) == FramesSize(stack[..|stack| - 1]) + Size(stack[|stack| - 1].node)
  {
  }

  // ---------------------------------------------------------------------------
  // What the archive holds
  // ---------------------------------------------------------------------------

  lemma {:induction false} MapIndex<A, B>(f: A -> B, xs: seq<A>, i: nat)
    requires i < |xs|
    ensures MapSeq(f, xs)[i] == f(xs[i])
    decreases |xs|
  {
    if i > 0 {
      MapIndex(f, xs[1..], i - 1);
    }
  }

  lemma {:induction false} PrefixedMember(name: string, ps: seq<Planned>, p: Planned)
    ensures p in Prefixed([name], ps) <==>
            |p.comps| >= 1 && p.comps[0] == name && Planned(p.comps[1..], p.data) in ps
    decreases |ps|
  {
    if ps != [] {
      PrefixedMember(name, ps[1..], p);
      var head := Planned([name] + ps[0].comps, ps[0].data);
      assert Prefixed([name], ps) == [head] + Prefixed([name], ps[1..]);
      assert ps == [ps[0]] + ps[1..];
      if |p.comps| >= 1 && p.comps[0] == name && Planned(p.comps[1..], p.data) == ps[0] {
        assert p.comps == [name] + p.comps[1..];
      }
      if p == head {
        assert p.comps[1..] == ps[0].comps;
      }
    }
  }

  lemma {:induction false} NonDirsMember(cs: seq<Node>, c: Node)
    ensures c in NonDirsOf(cs) <==> c in cs && !c.Dir?
    decreases |cs|
  {
    if cs != [] {
      NonDirsMember(cs[1..], c);
      assert cs == [cs[0]] + cs[1..];
    }
  }

  lemma {:induction false} FilesHereMember(cfg: Config, files: seq<Node>, p: Planned)
    ensures p in FilesHere(cfg, files) <==>
            |p.comps| == 1 &&
            exists c :: c in files && Archived(cfg, c) && c.name == p.comps[0] && c.content.value == p.data
    decreases |files|
  {
    if files != [] {
      var init, last := files[..|files| - 1], files[|files| - 1];
      FilesHereMember(cfg, init, p);
      assert files == init + [last];
      var tail := if Archived(cfg, last) then [Planned([last.name], last.content.value)] else [];
      assert FilesHere(cfg, files) == FilesHere(cfg, init) + tail;
      if p in FilesHere(cfg, files) {
        if p in FilesHere(cfg, init) {
          var c :| c in init && Archived(cfg, c) && c.name == p.comps[0] && c.content.value == p.data;
          assert c in files;
        } else {
          assert p in tail;
          assert last in files;
        }
      }
      if |p.comps| == 1 && exists c :: c in files && Archived(cfg, c) && c.name == p.comps[0] && c.content.value == p.data {
        var c :| c in files && Archived(cfg, c) && c.name == p.comps[0] && c.content.value == p.data;
        if c in init {
          assert p in FilesHere(cfg, init);
        } else {
          assert c == last;
          assert p.comps == [last.name];
          assert p == Planned([last.name], last.content.value);
        }
      }
    }
  }

  /** The files of a listable directory that the walk archives directly. */
  lemma OwnFilesMember(cfg: Config, cs: seq<Node>, p: Planned)
    ensures p in FilesHere(cfg, NonDirsOf(cs)) <==>
            |p.comps| == 1 && Visible(cfg, p.comps[0]) &&
            exists c :: c in cs && c.name == p.comps[0] && Writable(cfg, c) && c.content.value == p.data
  {
    FilesHereMember(cfg, NonDirsOf(cs), p);
    forall c {
      NonDirsMember(cs, c);
    }
  }

  /**
   * Every planned file of the walk below `n` is archivable, and every
   * archivable file is planned: hidden directories are pruned, hidden files
   * skipped, unreadable files dropped, and nothing else is lost.
   */
  lemma {:induction false} WalkPlanMembers(cfg: Config, n: Node, p: Planned)
    ensures p in WalkPlan(cfg, n) <==> Archivable(cfg, n, p.comps, p.data)
    decreases n, 1
  {
    if n.Dir? && n.listable {
      OwnFilesMember(cfg, n.children, p);
      SubdirMembers(cfg, n.children, p);
      assert WalkPlan(cfg, n) == FilesHere(cfg, NonDirsOf(n.children)) + SubdirPlans(cfg, n.children);
    }
  }

  /** The sub-directory condition of `Archivable`, over a list of entries. */
  predicate InSubdirs(cfg: Config, cs: seq<Node>, comps: seq<string>, data: Bytes)
  {
    |comps| >= 2 && Visible(cfg, comps[0]) &&
    exists c :: c in cs && c.name == comps[0] && c.Dir? && Archivable(cfg, c, comps[1..], data)
  }

  lemma {:induction false} SubdirMembers(cfg: Config, cs: seq<Node>, p: Planned)
    ensures p in SubdirPlans(cfg, cs) <==> InSubdirs(cfg, cs, p.comps, p.data)
    decreases cs, 0
  {
    if cs != [] {
      var c0 := cs[0];
      SubdirMembers(cfg, cs[1..], p);
      assert cs == [c0] + cs[1..];
      var head := if c0.Dir? && Visible(cfg, c0.name) then Prefixed([c0.name], WalkPlan(cfg, c0)) else [];
      assert SubdirPlans(cfg, cs) == head + SubdirPlans(cfg, cs[1..]);
      var headHolds := |p.comps| >= 2 && Visible(cfg, p.comps[0]) && c0.name == p.comps[0] && c0.Dir? &&
                       Archivable(cfg, c0, p.comps[1..], p.data);
      if c0.Dir? && Visible(cfg, c0.name) {
        PrefixedMember(c0.name, WalkPlan(cfg, c0), p);
        if |p.comps| >= 1 {
          WalkPlanMembers(cfg, c0, Planned(p.comps[1..], p.data));
          if Archivable(cfg, c0, p.comps[1..], p.data) {
            ArchivableLength(cfg, c0, p.comps[1..], p.data);
          }
        }
        assert p in head <==> headHolds;
      } else {
        assert p !in head && !headHolds;
      }
      if InSubdirs(cfg, cs, p.comps, p.data) {
        var c :| c in cs && c.name == p.comps[0] && c.Dir? && Archivable(cfg, c, p.comps[1..], p.data);
        if c != c0 {
          assert c in cs[1..];
        }
      }
      if InSubdirs(cfg, cs[1..], p.comps, p.data) {
        var c :| c in cs[1..] && c.name == p.comps[0] && c.Dir? && Archivable(cfg, c, p.comps[1..], p.data);
        assert c in cs;
      }
    }
  }

  lemma ArchivableLength(cfg: Config, n: Node, comps: seq<string>, data: Bytes)
    requires Archivable(cfg, n, comps, data)
    ensures |comps| >= 1
  {
  }

  /** The components of an archivable file: at least one, all visible, and plain names in a well-named tree. */
  lemma {:induction false} ArchivableShape(cfg: Config, n: Node, comps: seq<string>, data: Bytes)
    requires Archivable(cfg, n, comps, data)
    ensures |comps| >= 1
    ensures forall k :: 0 <= k < |comps| ==> Visible(cfg, comps[k])
    ensures WellNamed(n) ==> AllNames(comps)
    decreases comps
  {
    if |comps| == 1 {
      var c :| c in n.children && c.name == comps[0] && Writable(cfg, c) && c.content.value == data;
    } else {
      var c :| c in n.children && c.name == comps[0] && c.Dir? && Archivable(cfg, c, comps[1..], data);
      ArchivableShape(cfg, c, comps[1..], data);
      assert forall k :: 1 <= k < |comps| ==> comps[k] == comps[1..][k - 1];
    }
  }

  /** `arc_root/relpath`, written out: the archive root, a '/', and the components joined by '/'. */
  function ArcName(arcRoot: string, comps: seq<string>): (r: string)
    requires '/' !in arcRoot && AllNames(comps)
    ensures arcRoot == "" ==> r == JoinWith('/', comps)
  {
    if arcRoot == "" then JoinWith('/', comps) else arcRoot + "/" + JoinWith('/', comps)
  }

  lemma {:induction false} UnderJoinAll(start: string, comps: seq<string>)
    ensures Under(start, comps) == JoinAll([start] + comps)
    decreases |comps|
  {
    if comps != [] {
      var init, last := comps[..|comps| - 1], comps[|comps| - 1];
      UnderJoinAll(start, init);
      JoinAllSnoc(start, init, last);
      assert [start] + comps == [start] + init + [last];
    }
  }

  /** `os.path.join(arc_root, relpath)` of a join of plain names. */
  lemma JoinArcRoot(arcRoot: string, comps: seq<string>)
    requires '/' !in arcRoot && AllNames(comps) && |comps| >= 1
    ensures Join(arcRoot, JoinWith('/', comps)) == ArcName(arcRoot, comps)
  {
    var j := JoinWith('/', comps);
    assert AllSegments(comps);
    JoinSegmentsEnds(comps);
    if arcRoot != "" {
      assert arcRoot[|arcRoot| - 1] in arcRoot;
      JoinPlain(arcRoot, j);
    } else {
      assert j[..1][0] == j[0];
    }
  }


  /** The name of the entry for a file reached through the plain names `comps`. */
  lemma EntryName(cfg: Config, start: NonEmptyPath, arcRoot: string, p: Planned)
    requires StartsWith(start, "/") && '/' !in arcRoot && AllNames(p.comps) && |p.comps| >= 1
    ensures EntryOf(cfg, start, arcRoot, p) == ArchiveEntry(ArcName(arcRoot, p.comps), Under(start, p.comps), p.data)
  {
    UnderJoinAll(start, p.comps);
    RelPathDescend(cfg.baseDir, start, p.comps);
    JoinArcRoot(arcRoot, p.comps);
  }

  /**
   * Every archived file of a well-named tree is stored as `arc_root` followed by
   * its components below the start path, and is read from that path.
   */
  lemma ArchiveNames(cfg: Config, fs: Node, rel: string)
    requires ValidConfig(cfg) && WellNamed(fs)
    ensures |ArchivePlan(cfg, fs, rel)| == |Plan(cfg, fs, rel)|
    ensures forall i :: 0 <= i < |Plan(cfg, fs, rel)| ==>
              AllNames(Plan(cfg, fs, rel)[i].comps) && |Plan(cfg, fs, rel)[i].comps| >= 1 &&
              ArchivePlan(cfg, fs, rel)[i] ==
              ArchiveEntry(ArcName(ArcRoot(cfg, rel), Plan(cfg, fs, rel)[i].comps),
                           Under(StartPath(cfg, rel), Plan(cfg, fs, rel)[i].comps),
                           Plan(cfg, fs, rel)[i].data)
  {
    StartAbsolute(cfg, rel);
    var start: NonEmptyPath := StartPath(cfg, rel);
    var arcRoot := ArcRoot(cfg, rel);
    var plan := Plan(cfg, fs, rel);
    var found := ResolvedAt(fs, start);
    WalkWellNamed(Pos([], fs), Split(start, '/'));
    forall i | 0 <= i < |plan|
      ensures AllNames(plan[i].comps) && |plan[i].comps| >= 1
      ensures ArchivePlan(cfg, fs, rel)[i] == ArchiveEntry(ArcName(arcRoot, plan[i].comps), Under(start, plan[i].comps), plan[i].data)
    {
      WalkPlanMembers(cfg, found.value, plan[i]);
      ArchivableShape(cfg, found.value, plan[i].comps, plan[i].data);
      MapIndex((p: Planned) => EntryOf(cfg, start, arcRoot, p), plan, i);
      EntryName(cfg, start, arcRoot, plan[i]);
    }
  }

  /** The archive of a well-named tree holds exactly the archivable files, under visible names only. */
  lemma ArchiveContents(cfg: Config, fs: Node, rel: string, n: Node, p: Planned)
    requires ResolvedAt(fs, StartPath(cfg, rel)) == Some(n)
    ensures p in Plan(cfg, fs, rel) <==> Archivable(cfg, n, p.comps, p.data)
    ensures p in Plan(cfg, fs, rel) ==> forall k :: 0 <= k < |p.comps| ==> Visible(cfg, p.comps[k])
  {
    WalkPlanMembers(cfg, n, p);
    if p in Plan(cfg, fs, rel) {
      ArchivableShape(cfg, n, p.comps, p.data);
    }
  }

  /** A start path that names nothing, or names a file, gives an empty archive. */
  lemma ArchiveOfNothing(cfg: Config, fs: Node, rel: string)
    requires ValidConfig(cfg)
    requires var n := ResolvedAt(fs, StartPath(cfg, rel)); n.None? || !n.value.Dir?
    ensures ArchivePlan(cfg, fs, rel) == []
  {
  }

  /** `rel_path` is not checked: an absolute one replaces the root outright. */
  lemma ZipStartUnchecked(cfg: Config, rel: string)
    requires ValidConfig(cfg) && StartsWith(rel, "/")
    ensures StartPath(cfg, rel) == rel && ArcRoot(cfg, rel) == Basename(rel)
  {
  }

  /** `rel_path` is not checked: ".." walks the parent of the root, which lies outside it. */
  lemma ZipParentEscapes(cfg: Config)
    requires ValidConfig(cfg) && cfg.baseDir != "/"
    ensures !StartsWith(NormPath(StartPath(cfg, "..")), cfg.baseDir)
  {
    ParentEscapes(cfg.baseDir);
  }

  /**
   * `rel_path` "<name>/.." normalises to the root itself, but the walk is handed
   * the joined path: when `name` is missing, or is not a directory, the
   * operating system cannot resolve it, and the archive is empty.
   */
  lemma ZipThroughMissing(cfg: Config, fs: Node, name: string)
    requires ValidConfig(cfg) && fs.Dir? && IsName(name) && IsDir(fs, cfg.baseDir)
    requires var c := NodeAt(fs, Join(cfg.baseDir, name)); c.None? || !c.value.Dir?
    ensures NormPath(StartPath(cfg, name + "/..")) == cfg.baseDir
    ensures ResolvedAt(fs, StartPath(cfg, name + "/..")) == None
    ensures ArchivePlan(cfg, fs, name + "/..") == []
  {
    DotDotNormalises(cfg, name);
    var base := cfg.baseDir;
    var rel := name + "/..";
    var root := Pos([], fs);
    NodeAtChild(fs, base, name);
    ResolvedAtNormal(fs, base);
    RelAroundName(name);
    assert rel[0] == name[0];
    if base == "/" {
      assert StartPath(cfg, rel) == "/" + rel;
      SplitSlash(rel);
      assert Walk(root, [""] + [name, ".."]) == Walk(root, [name, ".."]);
      StepThroughMissing(root, name);
    } else {
      BaseNoTrailingSlash(base);
      JoinPlain(base, rel);
      assert StartPath(cfg, rel) == base + ['/'] + rel;
      SplitAppend(base, rel, '/');
      WalkAppend(root, Split(base, '/'), [name, ".."]);
      StepThroughMissing(Walk(root, Split(base, '/')).value, name);
    }
  }

  /** `normpath` of the joined "<name>/.." is the root. */
  lemma DotDotNormalises(cfg: Config, name: string)
    requires ValidConfig(cfg) && IsName(name)
    ensures NormPath(StartPath(cfg, name + "/..")) == cfg.baseDir
  {
    var base := cfg.baseDir;
    var rel := name + "/..";
    var segs := Segments(base);
    var p := StartPath(cfg, rel);
    RelAroundName(name);
    AbsNormalShape(base);
    if base == "/" {
      DotDotSplitAtRoot(cfg, name);
    } else {
      DotDotSplitBelow(cfg, name);
    }
    DotDotFold(segs, name);
    NormPathOneSlash(p, segs);
  }

  lemma DotDotSplitAtRoot(cfg: Config, name: string)
    requires cfg.baseDir == "/" && IsName(name) && Split(name + "/..", '/') == [name, ".."]
    ensures var p := StartPath(cfg, name + "/..");
            |p| >= 2 && p[1] != '/' && Split(p, '/') == [""] + Segments(cfg.baseDir) + [name, ".."]
  {
    var rel := name + "/..";
    assert rel[0] == name[0];
    assert StartPath(cfg, rel) == "/" + rel;
    SplitSlash(rel);
  }

  lemma DotDotSplitBelow(cfg: Config, name: string)
    requires ValidConfig(cfg) && cfg.baseDir != "/" && IsName(name) && Split(name + "/..", '/') == [name, ".."]
    ensures var p := StartPath(cfg, name + "/..");
            |p| >= 2 && p[1] != '/' && Split(p, '/') == [""] + Segments(cfg.baseDir) + [name, ".."]
  {
    var rel := name + "/..";
    assert rel[0] == name[0];
    BaseNoTrailingSlash(cfg.baseDir);
    JoinPlain(cfg.baseDir, rel);
    SplitUnder(cfg.baseDir, rel);
  }

  lemma DotDotFold(segs: seq<string>, name: string)
    requires AllNames(segs) && IsName(name)
    ensures NormFold([], [""] + segs + [name, ".."], 1) == segs
  {
    FoldAfterRoot(segs, [name, ".."]);
    assert NormStep(segs, name, 1) == segs + [name];
    assert NormStep(segs + [name], "..", 1) == segs;
    assert NormFold(segs, [name, ".."], 1) == NormFold(segs + [name], [".."], 1);
  }

  lemma RelAroundName(name: string)
    requires IsName(name)
    ensures Split(name + "/..", '/') == [name, ".."]
  {
    SplitNoSep(name, '/');
    SplitNoSep("..", '/');
    SplitAppend(name, "..", '/');
    assert name + ['/'] + ".." == name + "/..";
  }

  lemma BaseNoTrailingSlash(base: string)
    requires AbsNormal(base) && base != "/"
    ensures base[|base| - 1] != '/'
  {
    AbsNormalShape(base);
    var segs := Segments(base);
    assert AllSegments(segs);
    JoinSegmentsEnds(segs);
  }

  /** A step into a missing name, or into a file, fails before ".." can undo it. */
  lemma StepThroughMissing(q: Pos, name: string)
    requires q.at.Dir? && IsName(name)
    requires var c := Child(q.at.children, name); c.None? || !c.value.Dir?
    ensures Walk(q, [name, ".."]) == None
  {
    var c := Child(q.at.children, name);
    if c.Some? {
      assert Walk(q, [name, ".."]) == Walk(Pos(q.up + [q.at], c.value), [".."]);
    }
  }

  /**
   * A `rel_path` of plain names, as the listing's ZIP link carries, resolves to
   * the entry its normalised join names.
   */
  lemma ZipStartNormal(cfg: Config, fs: Node, parts: seq<string>)
    requires ValidConfig(cfg) && fs.Dir? && AllNames(parts)
    ensures var start := StartPath(cfg, JoinWith('/', parts));
            NormPath(start) == start && ResolvedAt(fs, start) == NodeAt(fs, start)
  {
    if parts == [] {
      NormPathAbsNormal(cfg.baseDir);
      ResolvedAtNormal(fs, cfg.baseDir);
    } else {
      assert AllSegments(parts);
      JoinSegmentsEnds(parts);
      ResolveDescend(cfg.baseDir, parts);
      ResolvedAtNormal(fs, Join(cfg.baseDir, JoinWith('/', parts)));
    }
  }
}
