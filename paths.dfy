/**
 * The two path helpers of .NET the core relies on, for the Unix directory
 * separator '/': `Path.GetFileName` (tool/Program.cs:15,36,59) and
 * `Path.GetExtension` (tool/Program.cs:16,90, web/Program.cs:25), and the
 * closed set of archive extensions both programs test (tool/Program.cs:20-30,
 * web/Program.cs:27).
 */
module Paths {

  /** `Path.GetFileName(path)`: everything after the last '/'. */
  function GetFileName(path: string): string
  {
    if path == [] || path[|path| - 1] == '/' then []
    else GetFileName(path[..|path| - 1]) + [path[|path| - 1]]
  }

  /** The file name is the longest suffix of the path without a '/'. */
  lemma {:induction false} FileNameShape(path: string)
    ensures var name := GetFileName(path);
      && |name| <= |path| && name == path[|path| - |name|..]
      && (forall k | 0 <= k < |name| :: name[k] != '/')
      && (|name| < |path| ==> path[|path| - |name| - 1] == '/')
  {
    if path != [] && path[|path| - 1] != '/' {
      FileNameShape(path[..|path| - 1]);
    }
  }

  /** The file name of "dir/name", for a name without '/', is that name. */
  lemma {:induction false} FileNameInDirectory(dir: string, name: string)
    requires forall k | 0 <= k < |name| :: name[k] != '/'
    ensures GetFileName(dir + "/" + name) == name
  {
    var p := dir + "/" + name;
    if name != [] {
      assert p[..|p| - 1] == dir + "/" + name[..|name| - 1];
      FileNameInDirectory(dir, name[..|name| - 1]);
      assert name == name[..|name| - 1] + [name[|name| - 1]];
    } else {
      assert p[|p| - 1] == '/';
    }
  }

  /**
   * The suffix of `s` that starts at its last '.', provided no '/' follows
   * that dot; [] when the last path component holds no dot.
   */
  function DotTail(s: string): string
  {
    if s == [] || s[|s| - 1] == '/' then []
    else if s[|s| - 1] == '.' then ['.']
    else
      var t := DotTail(s[..|s| - 1]);
      if t == [] then [] else t + [s[|s| - 1]]
  }

  lemma {:induction false} DotTailShape(s: string)
    ensures var t := DotTail(s);
      && (t != [] ==> t[0] == '.' && |t| <= |s| && t == s[|s| - |t|..])
      && (forall k | 1 <= k < |t| :: t[k] != '.' && t[k] != '/')
  {
    if s != [] && s[|s| - 1] != '/' && s[|s| - 1] != '.' {
      DotTailShape(s[..|s| - 1]);
    }
  }

  /**
   * `Path.GetExtension(path)`: from the last '.' of the last component to the
   * end, dot included; "" when there is no such dot or when it is the final
   * character of the path.
   */
  function GetExtension(path: string): string
  {
    var t := DotTail(path);
    if |t| <= 1 then [] else t
  }

  /** A non-empty extension is a suffix of the path: a dot, then at least one character that is neither '.' nor '/'. */
  lemma ExtensionShape(path: string)
    ensures var ext := GetExtension(path);
      && (ext != [] ==> |ext| >= 2 && ext[0] == '.' && |ext| <= |path| && ext == path[|path| - |ext|..])
      && (forall k | 1 <= k < |ext| :: ext[k] != '.' && ext[k] != '/')
  {
    DotTailShape(path);
  }

  /** DotTail finds a dot exactly when the last path component holds one. */
  lemma {:induction false} DotTailEmpty(s: string)
    ensures DotTail(s) == [] <==> '.' !in GetFileName(s)
  {
    if s != [] && s[|s| - 1] != '/' && s[|s| - 1] != '.' {
      var name := GetFileName(s);
      assert name == GetFileName(s[..|s| - 1]) + [s[|s| - 1]];
      DotTailEmpty(s[..|s| - 1]);
    }
  }

  /** The extension is empty exactly when the file name has no dot or the path ends in one. */
  lemma ExtensionEmpty(path: string)
    ensures GetExtension(path) == [] <==>
      (path != [] && path[|path| - 1] == '.') || '.' !in GetFileName(path)
  {
    DotTailEmpty(path);
    var t := DotTail(path);
    if path != [] && path[|path| - 1] == '.' {
      assert t == ['.'];
    }
    if |t| == 1 {
      assert path[|path| - 1] == '.';
    }
  }

  /** The closed, case-sensitive set of extensions both programs treat as archives. */
  predicate IsArchiveType(ext: string)
  {
    ext == ".zip" || ext == ".skinzip"
  }

  predicate IsArchiveName(path: string)
  {
    IsArchiveType(GetExtension(path))
  }

  /** The extension of a path is the extension of its file name. */
  lemma {:induction false} DotTailOfFileName(path: string)
    ensures DotTail(GetFileName(path)) == DotTail(path)
  {
    if path != [] && path[|path| - 1] != '/' {
      var name := GetFileName(path);
      assert name[..|name| - 1] == GetFileName(path[..|path| - 1]);
      DotTailOfFileName(path[..|path| - 1]);
    }
  }

  lemma ExtensionOfFileName(path: string)
    ensures GetExtension(GetFileName(path)) == GetExtension(path)
  {
    DotTailOfFileName(path);
  }

  /** Appending a well-formed extension to any path makes it that path's extension. */
  lemma {:induction false} DotTailOfSuffix(prefix: string, ext: string)
    requires ext != [] && ext[0] == '.'
    requires forall k | 1 <= k < |ext| :: ext[k] != '.' && ext[k] != '/'
    ensures DotTail(prefix + ext) == ext
  {
    var s := prefix + ext;
    if |ext| > 1 {
      assert s[..|s| - 1] == prefix + ext[..|ext| - 1];
      DotTailOfSuffix(prefix, ext[..|ext| - 1]);
      assert ext == ext[..|ext| - 1] + [ext[|ext| - 1]];
    }
  }

  lemma ExtensionOfSuffix(prefix: string, ext: string)
    requires |ext| >= 2 && ext[0] == '.'
    requires forall k | 1 <= k < |ext| :: ext[k] != '.' && ext[k] != '/'
    ensures GetExtension(prefix + ext) == ext
  {
    DotTailOfSuffix(prefix, ext);
  }

  predicate EndsWith(s: string, suffix: string)
  {
    |suffix| <= |s| && s[|s| - |suffix|..] == suffix
  }

  /**
   * Routing by extension is a case-sensitive suffix test: a path is an archive
   * name exactly when it ends in ".zip" or ".skinzip".
   */
  lemma ArchiveNameIsSuffix(path: string)
    ensures IsArchiveName(path) <==> EndsWith(path, ".zip") || EndsWith(path, ".skinzip")
  {
    ExtensionShape(path);
    if EndsWith(path, ".zip") {
      assert path == path[..|path| - 4] + ".zip";
      ExtensionOfSuffix(path[..|path| - 4], ".zip");
    }
    if EndsWith(path, ".skinzip") {
      assert path == path[..|path| - 8] + ".skinzip";
      ExtensionOfSuffix(path[..|path| - 8], ".skinzip");
    }
  }

  /** Examples of the closed set: upper case, a trailing dot or a further suffix is not an archive. */
  lemma ArchiveExamples()
    ensures IsArchiveName("repofiles/skins.zip") && IsArchiveName("repofiles/pack.skinzip")
  {
    assert "repofiles/skins.zip" == "repofiles/skins" + ".zip";
    ExtensionOfSuffix("repofiles/skins", ".zip");
    assert "repofiles/pack.skinzip" == "repofiles/pack" + ".skinzip";
    ExtensionOfSuffix("repofiles/pack", ".skinzip");
  }

  lemma PlainExamples()
    ensures !IsArchiveName("repofiles/SKINS.ZIP") && !IsArchiveName("repofiles/skins.zip.bak")
    ensures !IsArchiveName("repofiles/skins.zip.")
  {
    assert "repofiles/SKINS.ZIP" == "repofiles/SKINS" + ".ZIP";
    ExtensionOfSuffix("repofiles/SKINS", ".ZIP");
    assert "repofiles/skins.zip.bak" == "repofiles/skins.zip" + ".bak";
    ExtensionOfSuffix("repofiles/skins.zip", ".bak");
    var p := "repofiles/skins.zip.";
    assert DotTail(p) == ['.'] by { assert p[|p| - 1] == '.'; }
  }
}
