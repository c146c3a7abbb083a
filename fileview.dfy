/** `generate_file_view` (server.py:189-238): how a file is shown, chosen by its extension. */
module FileView {
  import opened Wrappers
  import opened PyStr
  import opened PosixPath
  import opened FileSystem
  import opened Pages

  /** Extensions shown as text (server.py:193). */
  const TextExts: seq<string> :=
    [".txt", ".py", ".js", ".html", ".css", ".json", ".xml", ".md", ".yml", ".yaml", ".sh", ".bash",
     ".conf", ".cfg", ".ini", ".log", ".sql", ".csv", ".env", ".java", ".c", ".cpp", ".h", ".hpp",
     ".go", ".rb", ".php", ".rs", ".kt", ".toml", ".gitignore"]

  /** Extensions shown as an inline image (server.py:202). */
  const ImageExts: seq<string> := [".jpg", ".jpeg", ".png", ".gif", ".bmp", ".webp", ".svg", ".ico"]

  /** The lower-cased extension of the file's name. */
  function FileExt(filepath: string): string
  {
    Lower(Extension(Basename(filepath)))
  }

  /** The three chained `str.replace` calls: '&' first, then '<', then '>'. */
  function Escape(text: string): string
  {
    ReplaceChar(ReplaceChar(ReplaceChar(text, '&', "&amp;"), '<', "&lt;"), '>', "&gt;")
  }

  /** The content box for a file with lower-cased extension `ext` (server.py:195-207). */
  function ContentFor(ext: string, content: Bytes, decode: Bytes -> Option<string>): Content
  {
    if ext in TextExts || ext == "" then
      match decode(content)
      case Some(text) => Code(Escape(text))
      case None => CannotDisplay
    else if ext in ImageExts then Image("image/" + ext[1..], content)
    else if ext == ".pdf" then PdfNotice
    else BinaryNotice
  }

  /**
   * `generate_file_view(filepath, content)`; `decode` is `bytes.decode('utf-8')`,
   * None when it raises.
   */
  function GenerateFileView(filepath: string, content: Bytes, decode: Bytes -> Option<string>): (p: Page)
    ensures p.FileView? && p.title == Basename(filepath) && p.downloadPath == "/download" + filepath
  {
    var filename := Basename(filepath);
    var ext := Lower(Extension(filename));
    FileView(filename, "/download" + filepath, ContentFor(ext, content, decode))
  }

  // ---------------------------------------------------------------- escaping

  /** The entity for one character, as a single-pass escaper would write it. */
  function EscapeChar(c: char): string
  {
    if c == '&' then "&amp;" else if c == '<' then "&lt;" else if c == '>' then "&gt;" else [c]
  }

  /** A single left-to-right pass that escapes each character on its own. */
  function EscapeOnce(s: string): string
    decreases |s|
  {
    if s == [] then "" else EscapeChar(s[0]) + EscapeOnce(s[1..])
  }

  /** Decodes the three entities the escaper writes. */
  function Unescape(s: string): string
    decreases |s|
  {
    if s == [] then ""
    else if |s| >= 5 && s[..5] == "&amp;" then "&" + Unescape(s[5..])
    else if |s| >= 4 && s[..4] == "&lt;" then "<" + Unescape(s[4..])
    else if |s| >= 4 && s[..4] == "&gt;" then ">" + Unescape(s[4..])
    else [s[0]] + Unescape(s[1..])
  }

  lemma {:induction false} ReplaceAppend(a: string, b: string, c: char, rep: string)
    ensures ReplaceChar(a + b, c, rep) == ReplaceChar(a, c, rep) + ReplaceChar(b, c, rep)
    decreases |a|
  {
    if a != [] {
      ReplaceAppend(a[1..], b, c, rep);
      assert (a + b)[0] == a[0] && (a + b)[1..] == a[1..] + b;
      assert ReplaceChar(a + b, c, rep) == (if a[0] == c then rep else [a[0]]) + ReplaceChar(a[1..] + b, c, rep);
    } else {
      assert a + b == b;
    }
  }

  lemma {:induction false} ReplaceAbsent(s: string, c: char, rep: string)
    requires c !in s
    ensures ReplaceChar(s, c, rep) == s
    decreases |s|
  {
    if s != [] {
      ReplaceAbsent(s[1..], c, rep);
      assert s == [s[0]] + s[1..];
    }
  }

  lemma ReplaceSingle(x: char, c: char, rep: string)
    ensures ReplaceChar([x], c, rep) == if x == c then rep else [x]
  {
    assert [x][1..] == [];
  }

  /** The three chained passes escape one character as its entity. */
  lemma EscapeOneChar(c: char)
    ensures Escape([c]) == EscapeChar(c)
  {
    ReplaceSingle(c, '&', "&amp;");
    if c == '&' {
      ReplaceAbsent("&amp;", '<', "&lt;");
      ReplaceAbsent("&amp;", '>', "&gt;");
    } else {
      ReplaceSingle(c, '<', "&lt;");
      if c == '<' {
        ReplaceAbsent("&lt;", '>', "&gt;");
      } else {
        ReplaceSingle(c, '>', "&gt;");
      }
    }
  }

  /** Escaping a concatenation escapes each part. */
  lemma EscapeAppend(a: string, b: string)
    ensures Escape(a + b) == Escape(a) + Escape(b)
  {
    ReplaceAppend(a, b, '&', "&amp;");
    var a1, b1 := ReplaceChar(a, '&', "&amp;"), ReplaceChar(b, '&', "&amp;");
    ReplaceAppend(a1, b1, '<', "&lt;");
    var a2, b2 := ReplaceChar(a1, '<', "&lt;"), ReplaceChar(b1, '<', "&lt;");
    ReplaceAppend(a2, b2, '>', "&gt;");
  }

  /**
   * Replacing '&' first makes the three passes agree with a single pass: no
   * entity written by one pass is rewritten by a later one.
   */
  lemma {:induction false} EscapeIsSinglePass(s: string)
    ensures Escape(s) == EscapeOnce(s)
    decreases |s|
  {
    if s != [] {
      assert s == [s[0]] + s[1..];
      EscapeAppend([s[0]], s[1..]);
      EscapeOneChar(s[0]);
      EscapeIsSinglePass(s[1..]);
    }
  }

  /** The escaped text contains no raw '<' or '>', so it cannot open or close a tag. */
  lemma {:induction false} EscapedHasNoTags(s: string)
    ensures '<' !in Escape(s) && '>' !in Escape(s)
    decreases |s|
  {
    EscapeIsSinglePass(s);
    if s != [] {
      EscapedHasNoTags(s[1..]);
      EscapeIsSinglePass(s[1..]);
      assert '<' !in EscapeChar(s[0]) && '>' !in EscapeChar(s[0]);
    }
  }

  /** Unescaping the escaped text gives back the decoded text. */
  lemma {:induction false} EscapeRoundTrip(s: string)
    ensures Unescape(Escape(s)) == s
    decreases |s|
  {
    EscapeIsSinglePass(s);
    if s != [] {
      EscapeIsSinglePass(s[1..]);
      EscapeRoundTrip(s[1..]);
      UnescapeStep(s[0], EscapeOnce(s[1..]));
      assert s == [s[0]] + s[1..];
    }
  }

  /** The entity of one character is decoded back to that character. */
  lemma UnescapeStep(c: char, rest: string)
    ensures Unescape(EscapeChar(c) + rest) == [c] + Unescape(rest)
  {
    if c == '&' {
      UnescapeEntity("&amp;", rest);
    } else if c == '<' {
      UnescapeEntity("&lt;", rest);
    } else if c == '>' {
      UnescapeEntity("&gt;", rest);
    } else {
      UnescapePlain(c, rest);
    }
  }

  lemma UnescapeEntity(e: string, rest: string)
    requires e == "&amp;" || e == "&lt;" || e == "&gt;"
    ensures Unescape(e + rest) == (if e == "&amp;" then "&" else if e == "&lt;" then "<" else ">") + Unescape(rest)
  {
    var t := e + rest;
    assert t[..|e|] == e && t[|e|..] == rest;
    if e != "&amp;" {
      assert |t| >= 5 ==> t[..5][1] == e[1];
    }
    if e == "&gt;" {
      assert t[..4][1] == 'g';
    }
  }

  lemma UnescapePlain(c: char, rest: string)
    requires c != '&'
    ensures Unescape([c] + rest) == [c] + Unescape(rest)
  {
    var t := [c] + rest;
    assert t[0] == c && t[1..] == rest;
    assert |t| >= 5 ==> t[..5][0] == c;
    assert |t| >= 4 ==> t[..4][0] == c;
  }

  // ------------------------------------------------------------ classification

  /** The text-like branch: escaped text, or "Cannot display file" when decoding fails. */
  lemma FileViewText(filepath: string, content: Bytes, decode: Bytes -> Option<string>)
    requires FileExt(filepath) in TextExts || FileExt(filepath) == ""
    ensures var shown := GenerateFileView(filepath, content, decode).content;
            (shown.Code? <==> decode(content).Some?) &&
            (shown.Code? ==> Unescape(shown.escaped) == decode(content).value &&
                             '<' !in shown.escaped && '>' !in shown.escaped) &&
            (shown.CannotDisplay? <==> decode(content).None?)
  {
    if decode(content).Some? {
      var text := decode(content).value;
      EscapeRoundTrip(text);
      EscapedHasNoTags(text);
    }
  }

  /**
   * The other branches: an image extension shows the bytes as `image/<ext without
   * dot>`, ".pdf" the PDF notice, anything else the binary notice.
   */
  lemma FileViewOther(filepath: string, content: Bytes, decode: Bytes -> Option<string>)
    requires FileExt(filepath) !in TextExts && FileExt(filepath) != ""
    ensures var ext := FileExt(filepath);
            var shown := GenerateFileView(filepath, content, decode).content;
            (shown.Image? <==> ext in ImageExts) &&
            (shown.Image? ==> shown.mime == "image/" + ext[1..] && shown.data == content) &&
            (shown.PdfNotice? <==> ext == ".pdf") &&
            (shown.BinaryNotice? <==> ext !in ImageExts && ext != ".pdf")
  {
    PdfListedNowhere();
  }

  /** ".pdf" is in neither list, so the PDF branch can be taken. */
  lemma PdfListedNowhere()
    ensures ".pdf" !in TextExts && ".pdf" !in ImageExts
  {
  }

  /** The extension of `stem.ext` is ".ext" when the stem does not start with a dot. */
  lemma ExtensionOf(stem: string, ext: string)
    requires stem != "" && stem[0] != '.' && '/' !in stem && '/' !in ext && '.' !in ext
    ensures Extension(stem + "." + ext) == "." + ext
  {
    var p := stem + "." + ext;
    assert p == stem + ['.'] + ext;
    RFindAfter(stem, '.', ext);
    assert '/' !in p;
    assert p[0] != '.';
  }

  /** The file's extension is the lower-cased ".ext" of its last component `stem.ext`. */
  lemma FileExtOf(dir: string, stem: string, ext: string)
    requires stem != "" && stem[0] != '.' && '/' !in stem && '/' !in ext && '.' !in ext
    ensures FileExt(dir + "/" + stem + "." + ext) == Lower("." + ext)
  {
    var name := stem + "." + ext;
    assert dir + "/" + stem + "." + ext == dir + ['/'] + name;
    assert '/' !in name;
    BasenameSnoc(dir, name);
    ExtensionOf(stem, ext);
  }

  lemma LowerIdempotent(s: string)
    ensures Lower(Lower(s)) == Lower(s)
  {
  }

  /** Lower-casing keeps '.' and '/' where they were and adds none. */
  lemma LowerKeepsSeparators(s: string)
    ensures ('.' in Lower(s) <==> '.' in s) && ('/' in Lower(s) <==> '/' in s)
  {
    if '.' in Lower(s) {
      var i :| 0 <= i < |s| && Lower(s)[i] == '.';
    }
    if '/' in Lower(s) {
      var i :| 0 <= i < |s| && Lower(s)[i] == '/';
    }
    if '.' in s {
      var i :| 0 <= i < |s| && s[i] == '.';
      assert Lower(s)[i] == '.';
    }
    if '/' in s {
      var i :| 0 <= i < |s| && s[i] == '/';
      assert Lower(s)[i] == '/';
    }
  }

  lemma FileExtLowered(dir: string, stem: string, ext: string)
    requires stem != "" && stem[0] != '.' && '/' !in stem && '/' !in ext && '.' !in ext
    ensures FileExt(dir + "/" + stem + "." + ext) == FileExt(dir + "/" + stem + "." + Lower(ext))
  {
    var low := Lower(ext);
    LowerKeepsSeparators(ext);
    FileExtOf(dir, stem, ext);
    FileExtOf(dir, stem, low);
    LowerIdempotent(ext);
    LowerCons('.', ext);
    LowerCons('.', low);
  }

  lemma LowerCons(c: char, s: string)
    ensures Lower([c] + s) == [LowerChar(c)] + Lower(s)
  {
  }

  /**
   * The extension is matched whatever its case: `stem.EXT` is shown exactly as
   * `stem.ext` would be.
   */
  lemma ExtensionCaseFolded(dir: string, stem: string, ext: string, content: Bytes, decode: Bytes -> Option<string>)
    requires stem != "" && stem[0] != '.' && '/' !in stem && '/' !in ext && '.' !in ext
    ensures GenerateFileView(dir + "/" + stem + "." + ext, content, decode).content ==
            GenerateFileView(dir + "/" + stem + "." + Lower(ext), content, decode).content
  {
    FileExtLowered(dir, stem, ext);
  }

  /**
   * A leading dot does not start an extension: ".gitignore" and ".env" have none,
   * so they are text-like through the empty-extension rule.
   */
  lemma DotFilesAreTextLike(dir: string, rest: string)
    requires '.' !in rest && '/' !in rest
    ensures FileExt(dir + "/." + rest) == ""
  {
    var name := "." + rest;
    assert dir + "/." + rest == dir + ['/'] + name;
    BasenameSnoc(dir, name);
    assert name == "" + ['.'] + rest;
    RFindAfter("", '.', rest);
    assert '/' !in name;
  }
}
