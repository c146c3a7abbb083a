/**
 * The POSIX `os.path` functions the server applies to request paths:
 * join, basename, dirname, splitext, normpath, abspath and relpath.
 * They are purely lexical; none of them looks at the filesystem.
 */
module PosixPath {
  import opened Seqs
  import opened PyStr

  /** A path component as a directory hands it out: non-empty, no '/', neither "." nor "..". */
  predicate IsName(s: string)
  {
    s != "" && s != "." && s != ".." && '/' !in s
  }

  predicate AllNames(parts: seq<string>)
  {
    forall k :: 0 <= k < |parts| ==> IsName(parts[k])
  }

  /** A non-empty piece without '/': what `relpath` joins, ".." included. */
  predicate AllSegments(parts: seq<string>)
  {
    forall k :: 0 <= k < |parts| ==> parts[k] != "" && '/' !in parts[k]
  }

  /** An absolute path of the form `os.getcwd()` returns: "/" or "/n1/.../nk" with plain names. */
  predicate AbsNormal(p: string)
  {
    p == "/" || (|p| >= 2 && p[0] == '/' && AllNames(Split(p[1..], '/')))
  }

  /** The names of an `AbsNormal` path, outermost first. */
  function Segments(p: string): seq<string>
    requires AbsNormal(p)
  {
    if p == "/" then [] else Split(p[1..], '/')
  }

  /** `os.path.join(a, b)`: an absolute `b` discards `a`. */
  function Join(a: string, b: string): string
  {
    if StartsWith(b, "/") then b
    else if a == "" || a[|a| - 1] == '/' then a + b
    else a + "/" + b
  }

  /** `os.path.basename(p)`: what follows the last '/'. */
  function Basename(p: string): (r: string)
    ensures '/' !in r
    ensures |r| <= |p| && p[|p| - |r|..] == r
  {
    p[RFind(p, '/') + 1..]
  }

  /** `os.path.dirname(p)`: what precedes the last '/', trailing slashes removed unless it is all slashes. */
  function Dirname(p: string): string
  {
    var head := p[..RFind(p, '/') + 1];
    if head != "" && head != Repeat('/', |head|) then RStrip(head, '/') else head
  }

  /** The extension part of `os.path.splitext(p)`: from the last '.' of the last component,
      unless that component has only dots before it (so ".gitignore" has no extension). */
  function Extension(p: string): (r: string)
    ensures r == "" || (r[0] == '.' && '.' !in r[1..] && '/' !in r)
    ensures |r| <= |p| && p[|p| - |r|..] == r
  {
    var sepIndex := RFind(p, '/');
    var dotIndex := RFind(p, '.');
    if dotIndex > sepIndex && exists i :: sepIndex < i < dotIndex && p[i] != '.' then p[dotIndex..] else ""
  }

  /** The number of leading slashes `os.path.normpath` keeps: POSIX gives "//" a meaning of its own. */
  function InitialSlashes(p: string): nat
  {
    if !StartsWith(p, "/") then 0
    else if StartsWith(p, "//") && !StartsWith(p, "///") then 2
    else 1
  }

  /** One component of `normpath`'s loop: drop "" and ".", let ".." pop a name (or vanish at the root). */
  function NormStep(acc: seq<string>, comp: string, initial: nat): seq<string>
  {
    if comp == "" || comp == "." then acc
    else if comp != ".." || (initial == 0 && acc == []) || (acc != [] && acc[|acc| - 1] == "..") then acc + [comp]
    else if acc != [] then acc[..|acc| - 1]
    else acc
  }

  function NormFold(acc: seq<string>, comps: seq<string>, initial: nat): seq<string>
    decreases |comps|
  {
    if comps == [] then acc else NormFold(NormStep(acc, comps[0], initial), comps[1..], initial)
  }

  /** `os.path.normpath(p)` */
  function NormPath(p: string): (r: string)
    ensures r != ""
  {
    if p == "" then "."
    else
      var initial := InitialSlashes(p);
      var s := Repeat('/', initial) + JoinWith('/', NormFold([], Split(p, '/'), initial));
      if s == "" then "." else s
  }

  /** `os.path.abspath(p)` when the working directory is `cwd`. */
  function AbsPath(cwd: string, p: string): string
  {
    NormPath(Join(cwd, p))
  }

  /** `[x for x in p.split('/') if x]` */
  function NonEmpty(parts: seq<string>): (r: seq<string>)
    ensures forall k :: 0 <= k < |r| ==> r[k] != "" && r[k] in parts
  {
    if parts == [] then []
    else (if parts[0] == "" then [] else [parts[0]]) + NonEmpty(parts[1..])
  }

  /** The length of the common prefix of two lists, as `os.path.commonprefix` computes it for two. */
  function CommonLen(a: seq<string>, b: seq<string>): (n: nat)
    ensures n <= |a| && n <= |b| && a[..n] == b[..n]
    ensures n < |a| && n < |b| ==> a[n] != b[n]
  {
    if a == [] || b == [] || a[0] != b[0] then 0 else 1 + CommonLen(a[1..], b[1..])
  }

  /** `os.path.join(*parts)` for a non-empty list. */
  function JoinAll(parts: seq<string>): string
    requires |parts| >= 1
    decreases |parts|
  {
    if |parts| == 1 then parts[0] else Join(JoinAll(parts[..|parts| - 1]), parts[|parts| - 1])
  }

  /** `os.path.relpath(path, start)` when the working directory is `cwd`. */
  function RelPath(cwd: string, path: string, start: string): string
    requires path != ""
  {
    RelFromLists(NonEmpty(Split(AbsPath(cwd, start), '/')), NonEmpty(Split(AbsPath(cwd, path), '/')))
  }

  /** The `relpath` result from the components of `start` and of `path`: up to the common prefix, then down. */
  function RelFromLists(startList: seq<string>, pathList: seq<string>): string
  {
    var i := CommonLen(startList, pathList);
    var relList := seq(|startList| - i, _ => "..") + pathList[i..];
    if relList == [] then "." else JoinAll(relList)
  }

  // ---------------------------------------------------------------------------
  // Facts about joins of plain names
  // ---------------------------------------------------------------------------

  /** A join of non-empty slash-free pieces neither starts nor ends with '/'. */
  lemma {:induction false} JoinSegmentsEnds(parts: seq<string>)
    requires |parts| >= 1 && AllSegments(parts)
    ensures var j := JoinWith('/', parts); |j| > 0 && j[0] != '/' && j[|j| - 1] != '/'
    decreases |parts|
  {
    if |parts| > 1 {
      JoinSegmentsEnds(parts[1..]);
    } else {
      assert parts[0][0] in parts[0];
      assert parts[0][|parts[0]| - 1] in parts[0];
    }
  }

  /** A slash in front adds one empty piece to a split. */
  lemma SplitSlash(x: string)
    ensures Split("/" + x, '/') == [""] + Split(x, '/')
  {
    SplitAppend("", x, '/');
    assert "" + ['/'] + x == "/" + x;
  }

  lemma AbsNormalShape(p: string)
    requires AbsNormal(p)
    ensures AllNames(Segments(p)) && p == "/" + JoinWith('/', Segments(p))
  {
    if p != "/" {
      JoinSplit(p[1..], '/');
      assert p == [p[0]] + p[1..];
    }
  }

  lemma AbsNormalOf(segs: seq<string>)
    requires AllNames(segs)
    ensures AbsNormal("/" + JoinWith('/', segs)) && Segments("/" + JoinWith('/', segs)) == segs
  {
    var p := "/" + JoinWith('/', segs);
    if segs != [] {
      JoinSegmentsEnds(segs);
      assert p[1..] == JoinWith('/', segs);
      SplitJoin(segs, '/');
    }
  }

  /** The pieces of an `AbsNormal` path that `relpath` keeps are its segments. */
  lemma NonEmptySplitAbsNormal(p: string)
    requires AbsNormal(p)
    ensures NonEmpty(Split(p, '/')) == Segments(p)
  {
    AbsNormalShape(p);
    var segs := Segments(p);
    SplitSlash(JoinWith('/', segs));
    if segs == [] {
      assert p == "/" + "";
      assert Split(p, '/') == ["", ""];
      assert NonEmpty(["", ""]) == NonEmpty([""]) == NonEmpty([]);
    } else {
      SplitJoin(segs, '/');
      assert Split(p, '/') == [""] + segs;
      NonEmptyNames(segs);
      assert ([""] + segs)[1..] == segs;
    }
  }

  lemma {:induction false} NonEmptyNames(parts: seq<string>)
    requires AllSegments(parts)
    ensures NonEmpty(parts) == parts
    decreases |parts|
  {
    if parts != [] {
      NonEmptyNames(parts[1..]);
    }
  }

  lemma BasenameSnoc(a: string, last: string)
    requires '/' !in last
    ensures Basename(a + ['/'] + last) == last
  {
    RFindAfter(a, '/', last);
  }

  lemma DirnameSnoc(a: string, last: string)
    requires a != "" && a[0] != '/' && a[|a| - 1] != '/' && '/' !in last
    ensures Dirname(a + ['/'] + last) == a
  {
    var p := a + ['/'] + last;
    RFindAfter(a, '/', last);
    var head := p[..|a| + 1];
    assert head == a + ['/'];
    assert head[0] != '/';
    assert head != Repeat('/', |head|);
    assert head[..|head| - 1] == a;
    assert RStrip(head, '/') == RStrip(a, '/');
  }

  /** The basename of a join of pieces is the last piece. */
  lemma BasenameJoin(parts: seq<string>)
    requires |parts| >= 1 && AllSegments(parts)
    ensures Basename(JoinWith('/', parts)) == parts[|parts| - 1]
  {
    var init, last := parts[..|parts| - 1], parts[|parts| - 1];
    LastSplit(parts);
    JoinWithSnoc('/', init, last);
    if init != [] {
      var a := JoinWith('/', init);
      assert JoinWith('/', parts) == a + ['/'] + last;
      BasenameSnoc(a, last);
    }
  }

  /** The basename of an absolute join of pieces is the last piece. */
  lemma BasenameAbs(parts: seq<string>)
    requires |parts| >= 1 && AllSegments(parts)
    ensures Basename("/" + JoinWith('/', parts)) == parts[|parts| - 1]
  {
    var init, last := parts[..|parts| - 1], parts[|parts| - 1];
    LastSplit(parts);
    JoinWithSnoc('/', init, last);
    var a := if init == [] then "" else "/" + JoinWith('/', init);
    assert "/" + JoinWith('/', parts) == a + ['/'] + last;
    BasenameSnoc(a, last);
  }

  /** The dirname of a join of pieces is the join without its last piece ("" for one piece). */
  lemma DirnameJoin(parts: seq<string>)
    requires |parts| >= 1 && AllSegments(parts)
    ensures Dirname(JoinWith('/', parts)) == if |parts| == 1 then "" else JoinWith('/', parts[..|parts| - 1])
  {
    var init, last := parts[..|parts| - 1], parts[|parts| - 1];
    LastSplit(parts);
    JoinWithSnoc('/', init, last);
    if init != [] {
      var a := JoinWith('/', init);
      assert JoinWith('/', parts) == a + ['/'] + last;
      JoinSegmentsEnds(init);
      DirnameSnoc(a, last);
    }
  }

  lemma {:induction false} RFindAfter(a: string, c: char, b: string)
    requires c !in b
    ensures RFind(a + [c] + b, c) == |a|
    decreases |b|
  {
    var s := a + [c] + b;
    if |b| > 0 {
      assert s[..|s| - 1] == a + [c] + b[..|b| - 1];
      assert b[|b| - 1] in b;
      RFindAfter(a, c, b[..|b| - 1]);
    }
  }

  /** `os.path.join(*parts)` of slash-free pieces is the '/'-join. */
  lemma {:induction false} JoinAllSegments(parts: seq<string>)
    requires |parts| >= 1 && AllSegments(parts)
    ensures JoinAll(parts) == JoinWith('/', parts)
    decreases |parts|
  {
    if |parts| > 1 {
      var init, last := parts[..|parts| - 1], parts[|parts| - 1];
      LastSplit(parts);
      JoinAllSegments(init);
      JoinSegmentsEnds(init);
      assert last[0] != '/' by { assert last[0] in last; }
      JoinWithSnoc('/', init, last);
    }
  }

  // ---------------------------------------------------------------------------
  // normpath
  // ---------------------------------------------------------------------------

  lemma {:induction false} NormFoldAppend(acc: seq<string>, xs: seq<string>, ys: seq<string>, initial: nat)
    ensures NormFold(acc, xs + ys, initial) == NormFold(NormFold(acc, xs, initial), ys, initial)
    decreases |xs|
  {
    if xs == [] {
      assert xs + ys == ys;
    } else {
      assert (xs + ys)[0] == xs[0];
      assert (xs + ys)[1..] == xs[1..] + ys;
      NormFoldAppend(NormStep(acc, xs[0], initial), xs[1..], ys, initial);
    }
  }

  /** Plain names are appended unchanged. */
  lemma {:induction false} NormFoldNames(acc: seq<string>, names: seq<string>, initial: nat)
    requires AllNames(names)
    ensures NormFold(acc, names, initial) == acc + names
    decreases |names|
  {
    if names != [] {
      NormFoldNames(acc + [names[0]], names[1..], initial);
      assert acc + [names[0]] + names[1..] == acc + names;
    }
  }

  /** Under a leading slash no "", "." or ".." survives normalisation. */
  lemma {:induction false} NormFoldAbsolute(acc: seq<string>, comps: seq<string>, initial: nat)
    requires initial > 0 && AllNames(acc)
    requires forall k :: 0 <= k < |comps| ==> '/' !in comps[k]
    ensures AllNames(NormFold(acc, comps, initial))
    decreases |comps|
  {
    if comps != [] {
      var next := NormStep(acc, comps[0], initial);
      assert acc != [] ==> acc[|acc| - 1] != "..";
      assert AllNames(next);
      NormFoldAbsolute(next, comps[1..], initial);
    }
  }

  /**
   * Normalising an absolute path leaves one or two leading slashes followed by
   * plain names only: "..", "." and empty components are gone, and a ".." that
   * would climb above the root is dropped.
   */
  lemma NormPathAbsolute(p: string)
    requires StartsWith(p, "/")
    ensures var initial := InitialSlashes(p);
            var names := NormFold([], Split(p, '/'), initial);
            (initial == 1 || initial == 2) && AllNames(names) &&
            NormPath(p) == Repeat('/', initial) + JoinWith('/', names)
  {
    NormFoldAbsolute([], Split(p, '/'), InitialSlashes(p));
  }

  /** `normpath` of a path with exactly one leading slash, given what its loop yields. */
  lemma NormPathOneSlash(p: string, names: seq<string>)
    requires |p| >= 2 && p[0] == '/' && p[1] != '/'
    requires NormFold([], Split(p, '/'), 1) == names
    ensures NormPath(p) == "/" + JoinWith('/', names)
  {
    assert StartsWith(p, "/") && !StartsWith(p, "//");
    assert InitialSlashes(p) == 1;
    assert Repeat('/', 1) == "/";
  }

  /** The loop skips the empty piece before the root's names and then keeps the names. */
  lemma FoldAfterRoot(segs: seq<string>, tail: seq<string>)
    requires AllNames(segs)
    ensures NormFold([], [""] + segs + tail, 1) == NormFold(segs, tail, 1)
  {
    NormFoldAppend([], [""] + segs, tail, 1);
    NormFoldAppend([], [""], segs, 1);
    assert NormFold([], [""], 1) == [];
    NormFoldNames([], segs, 1);
    assert [] + segs == segs;
  }

  /** Splitting what follows a non-root `AbsNormal` base. */
  lemma SplitUnder(base: string, tail: string)
    requires AbsNormal(base) && base != "/"
    ensures Split(base + "/" + tail, '/') == [""] + Segments(base) + Split(tail, '/')
    ensures |base + "/" + tail| >= 2 && (base + "/" + tail)[1] != '/'
  {
    AbsNormalShape(base);
    var segs := Segments(base);
    JoinSegmentsEnds(segs);
    assert base + "/" + tail == base + ['/'] + tail;
    SplitAppend(base, tail, '/');
    SplitSlash(JoinWith('/', segs));
    SplitJoin(segs, '/');
  }

  /** A path already in `getcwd()` form is left alone by `normpath`. */
  lemma NormPathAbsNormal(p: string)
    requires AbsNormal(p)
    ensures NormPath(p) == p
  {
    AbsNormalShape(p);
    var segs := Segments(p);
    var j := JoinWith('/', segs);
    SplitSlash(j);
    if segs == [] {
      assert p == "/" + "";
      assert Split(p, '/') == ["", ""];
      assert InitialSlashes(p) == 1;
      assert NormFold([], ["", ""], 1) == [];
      assert Repeat('/', 1) == "/";
    } else {
      JoinSegmentsEnds(segs);
      SplitJoin(segs, '/');
      assert Split(p, '/') == [""] + segs + [];
      FoldAfterRoot(segs, []);
      NormPathOneSlash(p, segs);
    }
  }

  /**
   * Descending by plain names from an `AbsNormal` base stays `AbsNormal`,
   * is left alone by `normpath`, and has the base as a prefix that ends at
   * a component boundary.
   */
  lemma ResolveDescend(base: string, parts: seq<string>)
    requires AbsNormal(base) && AllNames(parts) && |parts| >= 1
    ensures var full := Join(base, JoinWith('/', parts));
            AbsNormal(full) && Segments(full) == Segments(base) + parts &&
            NormPath(full) == full && StartsWith(full, base) &&
            (base == "/" || full[|base|] == '/')
  {
    var j := JoinWith('/', parts);
    var full := Join(base, j);
    AbsNormalShape(base);
    AllNamesConcat(Segments(base), parts);
    DescendShape(base, parts);
    AbsNormalOf(Segments(base) + parts);
    NormPathAbsNormal(full);
    if base == "/" {
      PrefixAt([], '/', j);
    } else {
      PrefixAt(base, '/', j);
    }
  }

  lemma AllNamesConcat(a: seq<string>, b: seq<string>)
    requires AllNames(a) && AllNames(b)
    ensures AllNames(a + b)
  {
    assert forall k :: 0 <= k < |a + b| ==> (a + b)[k] == if k < |a| then a[k] else b[k - |a|];
  }

  /** What precedes and what stands at position `|a|` in `a + [x] + b`. */
  lemma PrefixAt<T>(a: seq<T>, x: T, b: seq<T>)
    ensures (a + [x] + b)[..|a|] == a && (a + [x] + b)[|a|] == x
    ensures (a + [x] + b)[..|a| + 1] == a + [x]
  {
  }

  lemma DescendShape(base: string, parts: seq<string>)
    requires AbsNormal(base) && AllNames(parts) && |parts| >= 1
    ensures Join(base, JoinWith('/', parts)) == "/" + JoinWith('/', Segments(base) + parts)
    ensures Join(base, JoinWith('/', parts)) == (if base == "/" then "/" else base + "/") + JoinWith('/', parts)
  {
    JoinSegmentsEnds(parts);
    if base == "/" {
      DescendFromRoot(JoinWith('/', parts));
      assert Segments(base) + parts == parts;
    } else {
      DescendFromDir(base, parts);
    }
  }

  lemma DescendFromRoot(rel: string)
    requires rel != "" && rel[0] != '/'
    ensures Join("/", rel) == "/" + rel
  {
  }

  lemma DescendFromDir(base: string, parts: seq<string>)
    requires AbsNormal(base) && base != "/" && AllNames(parts) && |parts| >= 1
    ensures Join(base, JoinWith('/', parts)) == "/" + JoinWith('/', Segments(base) + parts)
    ensures Join(base, JoinWith('/', parts)) == base + "/" + JoinWith('/', parts)
  {
    AbsNormalShape(base);
    DescendFromSegments(Segments(base), parts);
  }

  lemma DescendFromSegments(segs: seq<string>, parts: seq<string>)
    requires AllNames(segs) && |segs| >= 1 && AllNames(parts) && |parts| >= 1
    ensures var base := "/" + JoinWith('/', segs);
            Join(base, JoinWith('/', parts)) == "/" + JoinWith('/', segs + parts) &&
            Join(base, JoinWith('/', parts)) == base + "/" + JoinWith('/', parts)
  {
    JoinBelowSegments(segs, parts);
    AbsJoinAppend(segs, parts);
  }

  lemma JoinBelowSegments(segs: seq<string>, parts: seq<string>)
    requires AllNames(segs) && |segs| >= 1 && AllNames(parts) && |parts| >= 1
    ensures var base := "/" + JoinWith('/', segs);
            Join(base, JoinWith('/', parts)) == base + "/" + JoinWith('/', parts)
  {
    var j := JoinWith('/', segs);
    var rel := JoinWith('/', parts);
    JoinSegmentsEnds(parts);
    JoinSegmentsEnds(segs);
    JoinPlain("/" + j, rel);
  }

  lemma AbsJoinAppend(segs: seq<string>, parts: seq<string>)
    requires |segs| >= 1 && |parts| >= 1
    ensures var base := "/" + JoinWith('/', segs);
            base + "/" + JoinWith('/', parts) == "/" + JoinWith('/', segs + parts)
  {
    var j := JoinWith('/', segs);
    var rel := JoinWith('/', parts);
    JoinWithAppend('/', segs, parts);
    assert "/" + JoinWith('/', segs + parts) == "/" + (j + ['/'] + rel);
    assert "/" + (j + ['/'] + rel) == ("/" + j) + "/" + rel;
  }

  /** `os.path.join` of a directory not ending in '/' and a relative path inserts one '/'. */
  lemma JoinPlain(a: string, b: string)
    requires a != "" && a[|a| - 1] != '/'
    requires b == "" || b[0] != '/'
    ensures Join(a, b) == a + "/" + b
  {
  }

  /** ".." from any base other than "/" normalises to the parent, which is shorter than the base. */
  lemma ParentEscapes(base: string)
    requires AbsNormal(base) && base != "/"
    ensures var segs := Segments(base);
            NormPath(Join(base, "..")) == "/" + JoinWith('/', segs[..|segs| - 1])
    ensures !StartsWith(NormPath(Join(base, "..")), base)
  {
    AbsNormalShape(base);
    var segs := Segments(base);
    var init, last := segs[..|segs| - 1], segs[|segs| - 1];
    LastSplit(segs);
    ParentNorm(base, init, last);
    ParentShorter(init, last);
  }

  lemma ParentNorm(base: string, init: seq<string>, last: string)
    requires AbsNormal(base) && base != "/" && Segments(base) == init + [last]
    ensures NormPath(Join(base, "..")) == "/" + JoinWith('/', init)
  {
    var segs := init + [last];
    var p := Join(base, "..");
    AbsNormalShape(base);
    JoinSegmentsEnds(segs);
    JoinPlain(base, "..");
    SplitUnder(base, "..");
    SplitNoSep("..", '/');
    FoldAfterRoot(segs, [".."]);
    ParentFold(init, last);
    NormPathOneSlash(p, init);
  }

  lemma ParentFold(init: seq<string>, last: string)
    requires AllNames(init + [last])
    ensures NormFold(init + [last], [".."], 1) == init
  {
    assert IsName((init + [last])[|init|]);
    assert (init + [last])[..|init + [last]| - 1] == init;
    assert NormStep(init + [last], "..", 1) == init;
    assert [".."][1..] == [];
  }

  lemma ParentShorter(init: seq<string>, last: string)
    requires AllNames(init + [last])
    ensures |"/" + JoinWith('/', init)| < |"/" + JoinWith('/', init + [last])|
  {
    JoinWithSnoc('/', init, last);
  }

  /**
   * A sibling of the base whose name extends the base's last name by `x`
   * normalises to `base + x`: a plain string prefix of the result, although
   * it lies outside the base's tree.
   */
  lemma SiblingAccepted(base: string, x: string)
    requires AbsNormal(base) && base != "/"
    requires x != "" && '/' !in x
    ensures NormPath(Join(base, "../" + Basename(base) + x)) == base + x
    ensures StartsWith(base + x, base)
    ensures AbsNormal(base + x) && !(Segments(base) <= Segments(base + x))
  {
    AbsNormalShape(base);
    var segs := Segments(base);
    var init, last := segs[..|segs| - 1], segs[|segs| - 1];
    LastSplit(segs);
    BasenameAbs(segs);
    var sib := last + x;
    SiblingName(last, x);
    SiblingRelName(last, x);
    SiblingNormPath(base, init, last, sib);
    SiblingShape(init, last, x);
    SiblingSegments(base, init, last, x);
  }

  /**
   * The same holds below the sibling: `<base>/../<last>x/<names>` normalises to
   * `<base>x/<names>`, which also passes the plain prefix test while lying outside
   * the base's tree.
   */
  lemma SiblingDescend(base: string, x: string, names: seq<string>)
    requires AbsNormal(base) && base != "/"
    requires x != "" && '/' !in x && AllNames(names) && |names| >= 1
    ensures var target := base + x + "/" + JoinWith('/', names);
            NormPath(Join(base, "../" + Basename(base) + x + "/" + JoinWith('/', names))) == target &&
            StartsWith(target, base) &&
            AbsNormal(target) && !(Segments(base) <= Segments(target))
  {
    AbsNormalShape(base);
    var segs := Segments(base);
    var init, last := segs[..|segs| - 1], segs[|segs| - 1];
    LastSplit(segs);
    BasenameAbs(segs);
    var sib := last + x;
    SiblingName(last, x);
    SiblingRel(last, x, JoinWith('/', names));
    SiblingDescendNorm(base, init, last, sib, names);
    SiblingDescendShape(base, init, last, x, names);
  }

  /** A non-empty sequence is its front followed by its last element. */
  lemma LastSplit<T>(s: seq<T>)
    requires |s| >= 1
    ensures s == s[..|s| - 1] + [s[|s| - 1]]
  {
  }

  lemma SiblingRelName(last: string, x: string)
    ensures "../" + last + x == ".." + ['/'] + (last + x)
  {
  }

  lemma SiblingRel(last: string, x: string, j: string)
    ensures "../" + last + x + "/" + j == ".." + ['/'] + (last + x + ['/'] + j)
  {
  }

  lemma SiblingDescendNorm(base: string, init: seq<string>, last: string, sib: string, names: seq<string>)
    requires AbsNormal(base) && base != "/" && Segments(base) == init + [last]
    requires IsName(sib) && AllNames(names) && |names| >= 1
    ensures NormPath(Join(base, ".." + ['/'] + (sib + ['/'] + JoinWith('/', names))))
            == "/" + JoinWith('/', init + [sib] + names)
  {
    var p := Join(base, ".." + ['/'] + (sib + ['/'] + JoinWith('/', names)));
    AbsNormalShape(base);
    SiblingDescendSplit(base, sib, names);
    FoldAfterRoot(init + [last], ["..", sib] + names);
    NormFoldAppend(init + [last], ["..", sib], names, 1);
    SiblingFold(init, last, sib);
    NormFoldNames(init + [sib], names, 1);
    NormPathOneSlash(p, init + [sib] + names);
  }

  lemma SiblingDescendShape(base: string, init: seq<string>, last: string, x: string, names: seq<string>)
    requires AbsNormal(base) && base != "/" && Segments(base) == init + [last]
    requires base == "/" + JoinWith('/', init + [last])
    requires x != "" && '/' !in x && IsName(last + x) && AllNames(names) && |names| >= 1
    ensures var target := base + x + "/" + JoinWith('/', names);
            "/" + JoinWith('/', init + [last + x] + names) == target &&
            StartsWith(target, base) &&
            AbsNormal(target) && !(Segments(base) <= Segments(target))
  {
    var sib := last + x;
    AbsNormalShape(base);
    SiblingShape(init, last, x);
    AbsJoinAppend(init + [sib], names);
    AllNamesSnoc(init, last, sib);
    SiblingTarget(init, sib, names);
    var target := base + x + "/" + JoinWith('/', names);
    assert target[..|base|] == base;
    var t := init + [sib] + names;
    assert t[|init|] == sib && (init + [last])[|init|] == last;
  }

  lemma SiblingDescendSplit(base: string, sib: string, names: seq<string>)
    requires AbsNormal(base) && base != "/" && IsName(sib) && AllNames(names) && |names| >= 1
    ensures var p := Join(base, ".." + ['/'] + (sib + ['/'] + JoinWith('/', names)));
            Split(p, '/') == [""] + Segments(base) + (["..", sib] + names) &&
            |p| >= 2 && p[0] == '/' && p[1] != '/'
  {
    var rel := ".." + ['/'] + (sib + ['/'] + JoinWith('/', names));
    AbsNormalShape(base);
    JoinSegmentsEnds(Segments(base));
    JoinPlain(base, rel);
    SplitUnder(base, rel);
    SiblingRelSplit(sib, names);
  }

  lemma SiblingRelSplit(sib: string, names: seq<string>)
    requires IsName(sib) && AllNames(names) && |names| >= 1
    ensures Split(".." + ['/'] + (sib + ['/'] + JoinWith('/', names)), '/') == ["..", sib] + names
  {
    var j := JoinWith('/', names);
    SplitAppend("..", sib + ['/'] + j, '/');
    SplitAppend(sib, j, '/');
    SplitNoSep("..", '/');
    SplitNoSep(sib, '/');
    SplitJoin(names, '/');
    ConsAssoc("..", [sib], names);
  }

  lemma SiblingTarget(init: seq<string>, sib: string, names: seq<string>)
    requires AllNames(init + [sib]) && AllNames(names)
    ensures AllNames(init + [sib] + names)
    ensures AbsNormal("/" + JoinWith('/', init + [sib] + names))
    ensures Segments("/" + JoinWith('/', init + [sib] + names)) == init + [sib] + names
  {
    var all := init + [sib] + names;
    assert forall k :: 0 <= k < |all| ==> all[k] == (if k < |init| + 1 then (init + [sib])[k] else names[k - |init| - 1]);
    AbsNormalOf(all);
  }

  lemma SiblingName(last: string, x: string)
    requires IsName(last) && x != "" && '/' !in x
    ensures IsName(last + x)
  {
    assert (last + x)[0] == last[0];
    assert |last + x| > |last|;
  }

  lemma SiblingSegments(base: string, init: seq<string>, last: string, x: string)
    requires base == "/" + JoinWith('/', init + [last]) && AllNames(init + [last])
    requires x != "" && '/' !in x && IsName(last + x)
    requires "/" + JoinWith('/', init + [last + x]) == base + x
    ensures AbsNormal(base + x) && Segments(base + x) == init + [last + x]
  {
    AllNamesSnoc(init, last, last + x);
    AbsNormalOf(init + [last + x]);
  }

  lemma AllNamesSnoc(init: seq<string>, last: string, y: string)
    requires AllNames(init + [last]) && IsName(y)
    ensures AllNames(init) && AllNames(init + [y])
  {
    assert forall k :: 0 <= k < |init| ==> init[k] == (init + [last])[k];
  }

  lemma SiblingNormPath(base: string, init: seq<string>, last: string, sib: string)
    requires AbsNormal(base) && base != "/" && Segments(base) == init + [last] && IsName(sib)
    ensures NormPath(Join(base, ".." + ['/'] + sib)) == "/" + JoinWith('/', init + [sib])
  {
    var p := Join(base, ".." + ['/'] + sib);
    AbsNormalShape(base);
    SiblingSplit(base, sib);
    FoldAfterRoot(init + [last], ["..", sib]);
    SiblingFold(init, last, sib);
    NormPathOneSlash(p, init + [sib]);
  }

  lemma SiblingSplit(base: string, sib: string)
    requires AbsNormal(base) && base != "/" && IsName(sib)
    ensures var p := Join(base, ".." + ['/'] + sib);
            Split(p, '/') == [""] + Segments(base) + ["..", sib] && |p| >= 2 && p[0] == '/' && p[1] != '/'
  {
    var rel := ".." + ['/'] + sib;
    AbsNormalShape(base);
    JoinSegmentsEnds(Segments(base));
    assert Join(base, rel) == base + "/" + rel;
    SplitUnder(base, rel);
    SplitAppend("..", sib, '/');
    SplitNoSep("..", '/');
    SplitNoSep(sib, '/');
  }

  lemma SiblingFold(init: seq<string>, last: string, sib: string)
    requires AllNames(init + [last]) && IsName(sib)
    ensures NormFold(init + [last], ["..", sib], 1) == init + [sib]
  {
    assert IsName((init + [last])[|init|]);
    assert (init + [last])[..|init + [last]| - 1] == init;
    assert NormStep(init + [last], "..", 1) == init;
    assert ["..", sib][1..] == [sib];
    assert NormFold(init + [last], ["..", sib], 1) == NormFold(init, [sib], 1);
    assert NormStep(init, sib, 1) == init + [sib];
    assert [sib][1..] == [];
    assert NormFold(init, [sib], 1) == NormFold(init + [sib], [], 1);
  }

  lemma SiblingShape(init: seq<string>, last: string, x: string)
    requires AllNames(init + [last]) && x != "" && '/' !in x
    ensures "/" + JoinWith('/', init + [last + x]) == "/" + JoinWith('/', init + [last]) + x
    ensures !(init + [last] <= init + [last + x])
  {
    JoinWithSnoc('/', init, last + x);
    JoinWithSnoc('/', init, last);
    var s1, s2 := init + [last], init + [last + x];
    assert s1[|init|] == last && s2[|init|] == last + x;
    assert |last + x| > |last|;
  }

  /**
   * The containment the server evidently wants: a prefix that ends at a
   * component boundary means the path lies inside the base's tree.
   */
  lemma AlignedPrefixInside(base: string, full: string)
    requires AbsNormal(base) && AbsNormal(full)
    requires StartsWith(full, base)
    requires base == "/" || |full| == |base| || full[|base|] == '/'
    ensures Segments(base) <= Segments(full)
  {
    if base != "/" && |full| != |base| {
      var rest := full[|base| + 1..];
      assert full[1..] == base[1..] + ['/'] + rest;
      SplitAppend(base[1..], rest, '/');
    } else if base != "/" {
      assert full == base;
    }
  }

  /** `relpath` of the base against itself is ".": the root listing has an empty relative path. */
  lemma RelPathSelf(base: string)
    requires AbsNormal(base)
    ensures RelPath(base, base, base) == "."
  {
    AbsPathAbsNormal(base, base);
    NonEmptySplitAbsNormal(base);
    RelListSelf(Segments(base));
  }

  /** `relpath` of a plain descendant of the base is the names below the base. */
  lemma RelPathBelow(base: string, parts: seq<string>)
    requires AbsNormal(base) && AllNames(parts) && |parts| >= 1
    ensures RelPath(base, Join(base, JoinWith('/', parts)), base) == JoinWith('/', parts)
  {
    ResolveDescend(base, parts);
    var full := Join(base, JoinWith('/', parts));
    var segs := Segments(base);
    AbsPathAbsNormal(base, base);
    AbsPathAbsNormal(base, full);
    NonEmptySplitAbsNormal(base);
    NonEmptySplitAbsNormal(full);
    RelListBelow(segs, parts);
  }

  lemma RelListBelow(segs: seq<string>, parts: seq<string>)
    requires AllNames(parts) && |parts| >= 1
    ensures RelFromLists(segs, segs + parts) == JoinWith('/', parts)
  {
    CommonLenPrefix(segs, parts);
    assert (segs + parts)[|segs|..] == parts;
    assert seq(0, _ => "..") + parts == parts;
    JoinAllSegments(parts);
  }

  /** `relpath` of a path from itself is ".". */
  lemma RelListSelf(segs: seq<string>)
    ensures RelFromLists(segs, segs) == "."
  {
    CommonLenPrefix(segs, []);
    assert segs + [] == segs;
    assert seq(0, _ => "..") + segs[|segs|..] == [];
  }

  lemma AbsPathAbsNormal(cwd: string, p: string)
    requires AbsNormal(p)
    ensures AbsPath(cwd, p) == p
  {
    assert Join(cwd, p) == p;
    NormPathAbsNormal(p);
  }

  lemma CommonLenPrefix(a: seq<string>, b: seq<string>)
    ensures CommonLen(a, a + b) == |a|
  {
    assert forall i :: 0 <= i < |a| ==> (a + b)[i] == a[i];
  }

  // ---------------------------------------------------------------------------
  // Descending from any absolute path by plain names, as `os.walk` does
  // ---------------------------------------------------------------------------

  /** A join of plain names splits back into those names, with no empty piece. */
  lemma NonEmptyJoinNames(names: seq<string>)
    requires AllNames(names)
    ensures NonEmpty(Split(JoinWith('/', names), '/')) == names
  {
    if names == [] {
      assert Split("", '/') == [""];
    } else {
      SplitJoin(names, '/');
      NonEmptyNames(names);
    }
  }

  /** A leading slash only adds an empty piece, which `NonEmpty` drops. */
  lemma NonEmptySlash(x: string)
    ensures NonEmpty(Split("/" + x, '/')) == NonEmpty(Split(x, '/'))
  {
    SplitSlash(x);
    assert ([""] + Split(x, '/'))[1..] == Split(x, '/');
  }

  /** One or two slashes followed by a join of names splits back into those names. */
  lemma RootedNames(k: nat, names: seq<string>)
    requires (k == 1 || k == 2) && AllNames(names)
    ensures NonEmpty(Split(Repeat('/', k) + JoinWith('/', names), '/')) == names
  {
    var j := JoinWith('/', names);
    NonEmptyJoinNames(names);
    NonEmptySlash(j);
    if k == 2 {
      assert Repeat('/', 2) + j == "/" + ("/" + j);
      NonEmptySlash("/" + j);
    } else {
      assert Repeat('/', 1) + j == "/" + j;
    }
  }

  /** The non-empty components of `normpath(p)` are what its loop keeps. */
  lemma NormComps(p: string)
    requires StartsWith(p, "/")
    ensures NonEmpty(Split(NormPath(p), '/')) == NormFold([], Split(p, '/'), InitialSlashes(p))
  {
    NormPathAbsolute(p);
    RootedNames(InitialSlashes(p), NormFold([], Split(p, '/'), InitialSlashes(p)));
  }

  /** Normalisation keeps no empty last piece: a trailing slash changes nothing. */
  lemma FoldTrailingSlash(y: string, k: nat)
    ensures NormFold([], Split(y + "/", '/'), k) == NormFold([], Split(y, '/'), k)
  {
    assert y + "/" == y + ['/'] + "";
    SplitAppend(y, "", '/');
    assert Split("", '/') == [""];
    NormFoldAppend([], Split(y, '/'), [""], k);
  }

  /** A name after a slash is one more component. */
  lemma FoldName(y: string, c: string, k: nat)
    requires IsName(c)
    ensures NormFold([], Split(y + "/" + c, '/'), k) == NormFold([], Split(y, '/'), k) + [c]
  {
    assert y + "/" + c == y + ['/'] + c;
    SplitAppend(y, c, '/');
    SplitNoSep(c, '/');
    NormFoldAppend([], Split(y, '/'), [c], k);
  }

  /** Text that begins with a name after the leading slashes leaves their count alone. */
  lemma InitialSlashesKept(x: string, y: string)
    requires StartsWith(x, "/") && |y| > |x| && y[..|x|] == x
    requires |x| == 1 ==> y[1] != '/'
    requires |x| == 2 ==> x[1] != '/' || y[2] != '/'
    ensures StartsWith(y, "/") && InitialSlashes(y) == InitialSlashes(x)
  {
    assert y[0] == x[0];
    if |x| >= 3 {
      assert y[..3] == x[..3];
    }
  }

  /** Joining a name onto an absolute path adds that name to what normalisation keeps. */
  lemma JoinNameFold(x: string, c: string)
    requires StartsWith(x, "/") && IsName(c)
    ensures StartsWith(Join(x, c), "/") && InitialSlashes(Join(x, c)) == InitialSlashes(x)
    ensures NormFold([], Split(Join(x, c), '/'), InitialSlashes(x)) ==
            NormFold([], Split(x, '/'), InitialSlashes(x)) + [c]
  {
    var k := InitialSlashes(x);
    assert c[0] != '/' by { assert c[0] in c; }
    if x[|x| - 1] == '/' {
      var y := x[..|x| - 1];
      assert x == y + "/";
      assert Join(x, c) == y + "/" + c;
      FoldTrailingSlash(y, k);
      FoldName(y, c, k);
      InitialSlashesKept(x, Join(x, c));
    } else {
      assert Join(x, c) == x + "/" + c;
      FoldName(x, c, k);
      InitialSlashesKept(x, Join(x, c));
    }
  }

  lemma JoinAllSnoc(x: string, init: seq<string>, last: string)
    ensures JoinAll([x] + init + [last]) == Join(JoinAll([x] + init), last)
  {
    assert ([x] + init + [last])[..|init| + 1] == [x] + init;
  }

  /** `os.path.join(x, *names)` of an absolute `x` normalises to x's components followed by the names. */
  lemma {:induction false} JoinAllNamesFold(x: string, names: seq<string>)
    requires StartsWith(x, "/") && AllNames(names)
    ensures StartsWith(JoinAll([x] + names), "/")
    ensures InitialSlashes(JoinAll([x] + names)) == InitialSlashes(x)
    ensures NormFold([], Split(JoinAll([x] + names), '/'), InitialSlashes(x)) ==
            NormFold([], Split(x, '/'), InitialSlashes(x)) + names
    decreases |names|
  {
    var k := InitialSlashes(x);
    if names == [] {
      assert [x] + names == [x];
    } else {
      var init, last := names[..|names| - 1], names[|names| - 1];
      LastSplit(names);
      assert AllNames(init) by {
        assert forall i :: 0 <= i < |init| ==> init[i] == names[i];
      }
      JoinAllNamesFold(x, init);
      var q := JoinAll([x] + init);
      JoinAllSnoc(x, init, last);
      Assoc3([x], init, [last]);
      JoinNameFold(q, last);
      Assoc3(NormFold([], Split(x, '/'), k), init, [last]);
    }
  }

  /**
   * The path of a file reached from an absolute directory `x` through the names
   * `names` is, relative to `x`, the names joined by '/'.
   */
  lemma RelPathDescend(cwd: string, x: string, names: seq<string>)
    requires StartsWith(x, "/") && AllNames(names) && |names| >= 1
    ensures JoinAll([x] + names) != ""
    ensures RelPath(cwd, JoinAll([x] + names), x) == JoinWith('/', names)
  {
    var p := JoinAll([x] + names);
    JoinAllNamesFold(x, names);
    var sl := NormFold([], Split(x, '/'), InitialSlashes(x));
    AbsoluteComps(cwd, x);
    AbsoluteComps(cwd, p);
    RelListBelow(sl, names);
  }

  /** The components `relpath` sees for an absolute path are what the `normpath` loop keeps. */
  lemma AbsoluteComps(cwd: string, p: string)
    requires StartsWith(p, "/")
    ensures p != ""
    ensures NonEmpty(Split(AbsPath(cwd, p), '/')) == NormFold([], Split(p, '/'), InitialSlashes(p))
  {
    assert Join(cwd, p) == p;
    NormComps(p);
  }

}
