/** The pure helpers of the file helper class: directory-separator
    normalization, path symbols such as `$` or `~` standing for a base
    directory, glob matching of file names, and the default permission
    masks written as octal strings. */
module FilesystemHelpers {
  import opened Wrappers
  import opened Text

  /** The settings of a file helper: the permission masks as configured
      (None for PHP null) and the known path symbols with their prefixes. */
  datatype Filesystem = Filesystem(
    filePermissions: Option<string>,
    folderPermissions: Option<string>,
    pathSymbols: map<string, string>)

  // ---------------------------------------------------------------------------
  // Directory separators

  /** normalizePath(): every backslash becomes '/'. */
  function NormalizePath(path: string): (r: string)
    ensures |r| == |path|
    ensures '\\' !in r
    ensures forall i :: 0 <= i < |path| ==> r[i] == (if path[i] == '\\' then '/' else path[i])
  {
    seq(|path|, i requires 0 <= i < |path| => if path[i] == '\\' then '/' else path[i])
  }

  lemma NormalizePathIdempotent(path: string)
    ensures NormalizePath(NormalizePath(path)) == NormalizePath(path)
  {
    var once := NormalizePath(path);
    var twice := NormalizePath(once);
    assert forall i :: 0 <= i < |once| ==> once[i] != '\\';
    assert forall i :: 0 <= i < |once| ==> twice[i] == once[i];
  }

  /** A path without backslashes is left as it is. */
  lemma NormalizePathKeeps(path: string)
    requires '\\' !in path
    ensures NormalizePath(path) == path
  {
    var r := NormalizePath(path);
    assert forall i :: 0 <= i < |path| ==> path[i] != '\\';
    assert forall i :: 0 <= i < |path| ==> r[i] == path[i];
  }

  // ---------------------------------------------------------------------------
  // Path symbols

  /** isPathSymbol(): the first character of the path (the empty string for
      an empty path) when it is a known symbol, None (PHP FALSE) otherwise. */
  function IsPathSymbol(fs: Filesystem, path: string): (r: Option<string>)
    ensures r.Some? ==> r.value in fs.pathSymbols
    ensures r.Some? ==> (|path| == 0 && r.value == "") || (|path| > 0 && r.value == [path[0]])
    ensures r.None? <==> (if |path| == 0 then "" else [path[0]]) !in fs.pathSymbols
  {
    var firstChar := if |path| == 0 then "" else [path[0]];
    if firstChar in fs.pathSymbols then Some(firstChar) else None
  }

  /** symbolizePath(): the prefix of the path's symbol followed by the rest
      of the path; without a symbol, the path itself when no default is
      given (None stands for the default FALSE) and the default otherwise.
      A symbol PHP reads as false ("" or "0") counts as no symbol. */
  function SymbolizePath(fs: Filesystem, path: string, default: Option<string>): (r: string)
  {
    match IsPathSymbol(fs, path)
    case Some(firstChar) =>
      if Truthy(firstChar) then fs.pathSymbols[firstChar] + path[1..]
      else if default.None? then path else default.value
    case None => if default.None? then path else default.value
  }

  /** With a usable symbol the path is expanded. */
  lemma SymbolizePathExpands(fs: Filesystem, path: string, default: Option<string>)
    requires |path| > 0 && [path[0]] in fs.pathSymbols && path[0] != '0'
    ensures SymbolizePath(fs, path, default) == fs.pathSymbols[[path[0]]] + path[1..]
  {
  }

  /** Without a usable symbol the path, or the default, comes back. */
  lemma SymbolizePathWithout(fs: Filesystem, path: string, default: Option<string>)
    requires IsPathSymbol(fs, path).None? || !Truthy(IsPathSymbol(fs, path).value)
    ensures default.None? ==> SymbolizePath(fs, path, default) == path
    ensures default.Some? ==> SymbolizePath(fs, path, default) == default.value
  {
  }

  /** The symbol "0" is never expanded, because PHP reads the string "0" as
      false. */
  lemma SymbolZeroIgnored(fs: Filesystem, path: string)
    requires |path| > 0 && path[0] == '0' && "0" in fs.pathSymbols
    ensures SymbolizePath(fs, path, None) == path
  {
    assert [path[0]] == "0";
  }

  // ---------------------------------------------------------------------------
  // File name globs

  /** One pattern character against one name character: '?' takes any
      character but a newline (PCRE's '.'), any other character matches
      itself ignoring ASCII case (the `i` flag). */
  predicate CharMatches(p: char, c: char)
  {
    if p == '?' then c != '\n' else LowerChar(p) == LowerChar(c)
  }

  /** The anchored glob the source builds as a regular expression: '*'
      takes any run of characters without a newline (PCRE's '.*'), '?' one
      such character, and every other character is literal. */
  predicate GlobMatch(name: string, pattern: string)
    decreases |pattern| + |name|
  {
    if |pattern| == 0 then |name| == 0
    else if pattern[0] == '*' then
      GlobMatch(name, pattern[1..]) || (|name| > 0 && name[0] != '\n' && GlobMatch(name[1..], pattern))
    else |name| > 0 && CharMatches(pattern[0], name[0]) && GlobMatch(name[1..], pattern[1..])
  }

  /** fileNameMatch(): an identical pattern matches; otherwise the glob must
      match the whole name, where PCRE's `$` also accepts the name with one
      trailing newline. */
  function FileNameMatch(fileName: string, pattern: string): (r: bool)
  {
    pattern == fileName
    || GlobMatch(fileName, pattern)
    || (|fileName| > 0 && fileName[|fileName| - 1] == '\n' && GlobMatch(fileName[..|fileName| - 1], pattern))
  }

  /** Every name matches itself as a glob, so the identity test in front of
      the regular expression never changes the answer. */
  lemma {:induction false} GlobMatchItself(s: string)
    ensures GlobMatch(s, s)
    decreases |s|
  {
    if |s| > 0 {
      GlobMatchItself(s[1..]);
      if s[0] == '*' {
        assert GlobMatch(s[1..], s[1..]);
        assert GlobMatch(s[1..], s);
      }
    }
  }

  /** fileNameMatch() answers as its regular expression alone would. */
  lemma FileNameMatchIsGlob(fileName: string, pattern: string)
    ensures FileNameMatch(fileName, pattern)
      <==> GlobMatch(fileName, pattern)
           || (|fileName| > 0 && fileName[|fileName| - 1] == '\n' && GlobMatch(fileName[..|fileName| - 1], pattern))
  {
    if pattern == fileName {
      GlobMatchItself(fileName);
    }
  }

  /** A pattern without '*' or '?' matches exactly the names equal to it
      after ASCII lower-casing (or those names with one trailing newline). */
  lemma {:induction false} GlobMatchLiteral(name: string, pattern: string)
    requires '*' !in pattern && '?' !in pattern
    ensures GlobMatch(name, pattern) <==> Lower(name) == Lower(pattern)
    decreases |pattern|
  {
    if |pattern| == 0 {
      assert |Lower(name)| == |name|;
    } else if |name| == 0 {
      assert |Lower(pattern)| > 0;
    } else {
      GlobMatchLiteral(name[1..], pattern[1..]);
      var ln, lp := Lower(name), Lower(pattern);
      assert ln == [LowerChar(name[0])] + Lower(name[1..]);
      assert lp == [LowerChar(pattern[0])] + Lower(pattern[1..]);
      if ln == lp {
        assert ln[1..] == lp[1..];
      }
    }
  }

  /** The pattern "*" matches exactly the names without a newline. */
  lemma {:induction false} GlobMatchStar(name: string)
    ensures GlobMatch(name, "*") <==> '\n' !in name
    decreases |name|
  {
    assert "*"[1..] == "";
    if |name| > 0 {
      GlobMatchStar(name[1..]);
      assert name == [name[0]] + name[1..];
    }
  }

  /** '?' takes exactly one character. */
  lemma GlobMatchQuestion(name: string)
    ensures GlobMatch(name, "?") <==> |name| == 1 && name[0] != '\n'
  {
    assert "?"[1..] == "";
  }

  // ---------------------------------------------------------------------------
  // Permission masks

  predicate IsOctalDigit(c: char)
  {
    '0' <= c <= '7'
  }

  /** octdec(): the octal value of the octal digits of the string; PHP
      skips every other character. */
  function OctDec(s: string): nat
  {
    if |s| == 0 then 0
    else
      var last := s[|s| - 1];
      if IsOctalDigit(last) then OctDec(s[..|s| - 1]) * 8 + (last as int - '0' as int)
      else OctDec(s[..|s| - 1])
  }

  /** The octal digits of a string, in order. */
  function OctalDigitsOf(s: string): (r: string)
    ensures forall i :: 0 <= i < |r| ==> IsOctalDigit(r[i])
  {
    if |s| == 0 then ""
    else
      var last := s[|s| - 1];
      OctalDigitsOf(s[..|s| - 1]) + (if IsOctalDigit(last) then [last] else "")
  }

  /** octdec() reads the octal digits of the string and nothing else. */
  lemma {:induction false} OctDecSkips(s: string)
    ensures OctDec(OctalDigitsOf(s)) == OctDec(s)
  {
    if |s| > 0 {
      var init := s[..|s| - 1];
      var last := s[|s| - 1];
      OctDecSkips(init);
      var d := OctalDigitsOf(s);
      if IsOctalDigit(last) {
        assert d == OctalDigitsOf(init) + [last];
        assert d[..|d| - 1] == OctalDigitsOf(init) && d[|d| - 1] == last;
      } else {
        assert d == OctalDigitsOf(init) + "";
        assert d == OctalDigitsOf(init);
      }
    }
  }

  /** The octal digits of a number, most significant first ("0" for zero). */
  function Octal(n: nat): (r: string)
    ensures |r| > 0 && forall i :: 0 <= i < |r| ==> IsOctalDigit(r[i])
  {
    var digit := ('0' as int + n % 8) as char;
    if n < 8 then [digit] else Octal(n / 8) + [digit]
  }

  /** octdec() reads back every number written in octal. */
  lemma {:induction false} OctDecOctal(n: nat)
    ensures OctDec(Octal(n)) == n
  {
    var digit := ('0' as int + n % 8) as char;
    if n < 8 {
      assert Octal(n)[..0] == "";
    } else {
      OctDecOctal(n / 8);
      var s := Octal(n);
      assert s[..|s| - 1] == Octal(n / 8);
    }
  }

  lemma OctDecMasks()
    ensures OctDec("777") == 511
    ensures OctDec("755") == 493
    ensures OctDec("644") == 420
  {
    assert "777"[..2] == "77" && "77"[..1] == "7" && "7"[..0] == "";
    assert "755"[..2] == "75" && "75"[..1] == "7";
    assert "644"[..2] == "64" && "64"[..1] == "6" && "6"[..0] == "";
  }

  /** The mask as a number, or None (PHP null) when the setting is null or
      a string PHP reads as false ("" or "0"). */
  function MaskValue(mask: Option<string>): Option<nat>
  {
    if mask.Some? && Truthy(mask.value) then Some(OctDec(mask.value)) else None
  }

  /** getFilePermissions(). */
  function GetFilePermissions(fs: Filesystem): (r: Option<nat>)
    ensures r.None? <==> fs.filePermissions.None? || fs.filePermissions.value in {"", "0"}
    ensures r.Some? ==> r.value == OctDec(fs.filePermissions.value)
  {
    MaskValue(fs.filePermissions)
  }

  /** getFolderPermissions(). */
  function GetFolderPermissions(fs: Filesystem): (r: Option<nat>)
    ensures r.None? <==> fs.folderPermissions.None? || fs.folderPermissions.value in {"", "0"}
    ensures r.Some? ==> r.value == OctDec(fs.folderPermissions.value)
  {
    MaskValue(fs.folderPermissions)
  }
}
