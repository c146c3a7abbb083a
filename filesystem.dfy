/**
 * The filesystem the server reads, as one finite tree rooted at "/".
 * Paths are looked up by their components; the server only ever looks up
 * normalised paths, whose components are plain names.
 */
module FileSystem {
  import opened Wrappers
  import opened Seqs
  import opened PyStr
  import opened PosixPath

  type Bytes = seq<bv8>

  /**
   * A directory entry. `File.content` is None when opening or reading the file
   * fails; `Dir.listable` is false when listing it raises PermissionError;
   * `Broken` is an entry whose `stat` fails (a dangling link, say), so it is
   * neither a directory nor a file.
   */
  datatype Node =
    | File(name: string, size: nat, mtime: int, content: Option<Bytes>)
    | Dir(name: string, mtime: int, listable: bool, children: seq<Node>)
    | Broken(name: string)

  /** The first child called `name`. */
  function Child(children: seq<Node>, name: string): (r: Option<Node>)
    ensures r.Some? ==> r.value in children && r.value.name == name
    ensures r.None? ==> forall k :: 0 <= k < |children| ==> children[k].name != name
  {
    if children == [] then None
    else if children[0].name == name then Some(children[0])
    else Child(children[1..], name)
  }

  /** The node reached from `n` by descending through `comps`. */
  function Lookup(n: Node, comps: seq<string>): Option<Node>
    decreases comps
  {
    if comps == [] then Some(n)
    else if !n.Dir? then None
    else
      match Child(n.children, comps[0])
      case None => None
      case Some(c) => Lookup(c, comps[1..])
  }

  /** The node an absolute path names in the tree `fs` (the directory "/"). */
  function NodeAt(fs: Node, path: string): Option<Node>
  {
    Lookup(fs, NonEmpty(Split(path, '/')))
  }

  /** `os.path.isdir(path)` */
  predicate IsDir(fs: Node, path: string)
  {
    var n := NodeAt(fs, path); n.Some? && n.value.Dir?
  }

  /** `os.path.isfile(path)` */
  predicate IsFile(fs: Node, path: string)
  {
    var n := NodeAt(fs, path); n.Some? && n.value.File?
  }

  /** Every entry name in the tree is a plain name without NUL, as a real directory hands them out. */
  predicate WellNamed(n: Node)
    decreases n
  {
    n.Dir? ==> forall c :: c in n.children ==> IsName(c.name) && '\0' !in c.name && WellNamed(c)
  }

  /** Looking up a path in a well-named tree finds a well-named subtree. */
  lemma {:induction false} LookupWellNamed(n: Node, comps: seq<string>)
    requires WellNamed(n)
    ensures var r := Lookup(n, comps); r.Some? ==> WellNamed(r.value)
    decreases comps
  {
    if comps != [] && n.Dir? {
      var c := Child(n.children, comps[0]);
      if c.Some? {
        LookupWellNamed(c.value, comps[1..]);
      }
    }
  }

  /** Looking up a path in two steps: the first part, then the rest from what it found. */
  lemma {:induction false} LookupAppend(n: Node, a: seq<string>, b: seq<string>)
    ensures Lookup(n, a + b) == match Lookup(n, a) { case None => None case Some(m) => Lookup(m, b) }
    decreases a
  {
    if a == [] {
      assert a + b == b;
    } else {
      assert (a + b)[0] == a[0] && (a + b)[1..] == a[1..] + b;
      if n.Dir? {
        match Child(n.children, a[0]) {
          case None =>
          case Some(c) => LookupAppend(c, a[1..], b);
        }
      }
    }
  }

  /** The entry `name` of the directory at `dir` is what `isdir`/`isfile` see at `os.path.join(dir, name)`. */
  lemma NodeAtChild(fs: Node, dir: string, name: string)
    requires AbsNormal(dir) && IsName(name) && IsDir(fs, dir)
    ensures AbsNormal(Join(dir, name)) && Segments(Join(dir, name)) == Segments(dir) + [name]
    ensures NodeAt(fs, Join(dir, name)) == Child(NodeAt(fs, dir).value.children, name)
  {
    assert JoinWith('/', [name]) == name;
    ResolveDescend(dir, [name]);
    NonEmptySplitAbsNormal(dir);
    NonEmptySplitAbsNormal(Join(dir, name));
    LookupAppend(fs, Segments(dir), [name]);
    var d := NodeAt(fs, dir).value;
    assert Lookup(fs, Segments(dir)) == Some(d);
    LookupOne(d, name);
  }

  lemma LookupOne(d: Node, name: string)
    requires d.Dir?
    ensures Lookup(d, [name]) == Child(d.children, name)
  {
    assert [name][1..] == [];
  }

  // ---------------------------------------------------------------------------
  // Resolution of a path that is not normalised
  // ---------------------------------------------------------------------------

  /** A point of a resolution: the directories above it, outermost first, and the entry reached. */
  datatype Pos = Pos(up: seq<Node>, at: Node)

  /** ".." from `pos`: the directory above, or the root itself at the root. */
  function Parent(pos: Pos): Pos
  {
    if pos.up == [] then pos else Pos(pos.up[..|pos.up| - 1], pos.up[|pos.up| - 1])
  }

  /**
   * How the operating system resolves path components one at a time: "" and
   * "." stay, ".." climbs, a name descends. Every step needs the entry reached
   * so far to be a directory, so a missing name, or any step after a file,
   * fails, even when a later ".." would undo it.
   */
  function Walk(pos: Pos, comps: seq<string>): Option<Pos>
    decreases |comps|
  {
    if comps == [] then Some(pos)
    else if !pos.at.Dir? then None
    else if comps[0] == "" || comps[0] == "." then Walk(pos, comps[1..])
    else if comps[0] == ".." then Walk(Parent(pos), comps[1..])
    else
      match Child(pos.at.children, comps[0])
      case None => None
      case Some(c) => Walk(Pos(pos.up + [pos.at], c), comps[1..])
  }

  /** The entry the operating system finds at the absolute path `path`, as `os.scandir` opens it. */
  function ResolvedAt(fs: Node, path: string): Option<Node>
  {
    match Walk(Pos([], fs), Split(path, '/'))
    case None => None
    case Some(p) => Some(p.at)
  }

  /** Resolving in two steps: the first components, then the rest from where they led. */
  lemma {:induction false} WalkAppend(pos: Pos, a: seq<string>, b: seq<string>)
    ensures Walk(pos, a + b) == match Walk(pos, a) { case None => None case Some(q) => Walk(q, b) }
    decreases |a|
  {
    if a == [] {
      assert a + b == b;
    } else {
      HeadTailAppend(a, b);
      if pos.at.Dir? {
        if a[0] == "" || a[0] == "." {
          WalkAppend(pos, a[1..], b);
        } else if a[0] == ".." {
          WalkAppend(Parent(pos), a[1..], b);
        } else {
          match Child(pos.at.children, a[0]) {
            case None =>
            case Some(c) => WalkAppend(Pos(pos.up + [pos.at], c), a[1..], b);
          }
        }
      }
    }
  }

  /** Over plain names the resolution is the lexical lookup. */
  lemma {:induction false} WalkNames(pos: Pos, names: seq<string>)
    requires AllNames(names)
    ensures var w := Walk(pos, names);
            (w.Some? <==> Lookup(pos.at, names).Some?) &&
            (w.Some? ==> w.value.at == Lookup(pos.at, names).value)
    decreases |names|
  {
    if names != [] && pos.at.Dir? {
      assert IsName(names[0]);
      assert AllNames(names[1..]) by {
        forall k | 0 <= k < |names[1..]| ensures IsName(names[1..][k]) {
          assert names[1..][k] == names[k + 1];
        }
      }
      match Child(pos.at.children, names[0]) {
        case None =>
        case Some(c) => WalkNames(Pos(pos.up + [pos.at], c), names[1..]);
      }
    }
  }

  /** A normalised absolute path resolves to the entry that looking up its names finds. */
  lemma ResolvedAtNormal(fs: Node, p: string)
    requires AbsNormal(p) && fs.Dir?
    ensures ResolvedAt(fs, p) == NodeAt(fs, p)
  {
    var root := Pos([], fs);
    if p == "/" {
      SplitSlash("");
      assert p == "/" + "";
      assert Split(p, '/') == ["", ""];
      assert NonEmpty(["", ""]) == [];
    } else {
      assert p == "/" + p[1..];
      SplitSlash(p[1..]);
      NonEmptySplitAbsNormal(p);
      WalkNames(root, Segments(p));
      assert Walk(root, Split(p, '/')) == Walk(root, Segments(p));
    }
  }

  /** Resolution from a well-named tree reaches a well-named entry. */
  lemma {:induction false} WalkWellNamed(pos: Pos, comps: seq<string>)
    requires WellNamed(pos.at) && forall k :: 0 <= k < |pos.up| ==> WellNamed(pos.up[k])
    ensures var w := Walk(pos, comps); w.Some? ==> WellNamed(w.value.at)
    decreases |comps|
  {
    if comps != [] && pos.at.Dir? {
      if comps[0] == "" || comps[0] == "." {
        WalkWellNamed(pos, comps[1..]);
      } else if comps[0] == ".." {
        WalkWellNamed(Parent(pos), comps[1..]);
      } else {
        match Child(pos.at.children, comps[0]) {
          case None =>
          case Some(c) =>
            var up := pos.up + [pos.at];
            assert forall k :: 0 <= k < |up| ==> WellNamed(up[k]) by {
              forall k | 0 <= k < |up| ensures WellNamed(up[k]) {
                if k < |pos.up| { assert up[k] == pos.up[k]; }
              }
            }
            WalkWellNamed(Pos(up, c), comps[1..]);
        }
      }
    }
  }
}
