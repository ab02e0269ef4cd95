/**
 * File-name tests on a path's text: `is_text_file` in local_extract.py
 * (a case-sensitive suffix test against a fixed list of extensions) and
 * the `file_extension` expression in extract_dataset.py (the text after
 * the last dot, or nothing when there is no dot).
 */
module FileNames {
  import opened Lines

  /**
   * The extensions `is_text_file` accepts, dot included, compared
   * case-sensitively. The set is written as one display per line of the
   * source's set literal: the verifier cannot decide membership in a single
   * display of 46 strings, so the lemmas below enumerate one line (or a few)
   * at a time.
   */
  const TextExtensions: set<string> :=
    ExtensionsLine1 + ExtensionsLine2 + ExtensionsLine3 + ExtensionsLine4 + ExtensionsLine5 + ExtensionsLine6

  const ExtensionsLine1: set<string> := {".py", ".js", ".ts", ".jsx", ".tsx", ".java", ".go", ".rb", ".rs"}
  const ExtensionsLine2: set<string> := {".cpp", ".c", ".h", ".hpp", ".cs", ".php", ".swift", ".kt", ".scala"}
  const ExtensionsLine3: set<string> := {".r", ".R", ".m", ".mm", ".dart", ".lua", ".pl", ".sh", ".bash"}
  const ExtensionsLine4: set<string> := {".json", ".xml", ".yaml", ".yml", ".toml", ".ini", ".cfg", ".conf"}
  const ExtensionsLine5: set<string> := {".md", ".txt", ".html", ".css", ".scss", ".sass", ".less"}
  const ExtensionsLine6: set<string> := {".sql", ".graphql", ".proto", ".thrift"}

  /** `s.endswith(suffix)`: `s` is some text followed by `suffix`. */
  predicate EndsWith(s: string, suffix: string): (b: bool)
    ensures b <==> exists prefix :: s == prefix + suffix
  {
    if |suffix| <= |s| && s[|s| - |suffix|..] == suffix then
      assert s == s[..|s| - |suffix|] + suffix;
      true
    else
      false
  }

  /**
   * `is_text_file(filename)`: the name ends with one of the listed
   * extensions; equivalently, it has a dot and its extension, with the dot
   * put back, is listed. This ties `is_text_file` to `file_extension`.
   */
  predicate IsTextFile(filename: string): (b: bool)
    ensures b <==> '.' in filename && "." + FileExtension(filename) in TextExtensions
  {
    ListedSuffixIsExtension(filename);
    exists ext | ext in TextExtensions :: EndsWith(filename, ext)
  }

  /**
   * `file_path.split('.')[-1] if '.' in file_path else ''`: the text after
   * the last dot of the whole path (which may lie in a directory name).
   */
  function FileExtension(path: string): (ext: string)
    ensures '.' !in ext
    ensures '.' in path ==> |ext| < |path| && path == path[..|path| - |ext| - 1] + ['.'] + ext
    ensures '.' !in path ==> ext == []
  {
    if '.' in path then
      SplitLastIsSuffix(path, '.');
      Last(Split(path, '.'))
    else []
  }

  /** A dot followed by a non-empty dot-free name, the shape of every listed extension. */
  predicate DotName(ext: string)
  {
    |ext| >= 2 && ext[0] == '.' && forall k :: 1 <= k < |ext| ==> ext[k] != '.'
  }

  // One lemma per line keeps each enumeration of literals small.
  lemma LineDotNames1()
    ensures forall ext :: ext in ExtensionsLine1 ==> DotName(ext)
  {
  }

  lemma LineDotNames2()
    ensures forall ext :: ext in ExtensionsLine2 ==> DotName(ext)
  {
  }

  lemma LineDotNames3()
    ensures forall ext :: ext in ExtensionsLine3 ==> DotName(ext)
  {
  }

  lemma LineDotNames4()
    ensures forall ext :: ext in ExtensionsLine4 ==> DotName(ext)
  {
  }

  lemma LineDotNames5()
    ensures forall ext :: ext in ExtensionsLine5 ==> DotName(ext)
  {
  }

  lemma LineDotNames6()
    ensures forall ext :: ext in ExtensionsLine6 ==> DotName(ext)
  {
  }

  lemma ExtensionsAreDotNames()
    ensures forall ext :: ext in TextExtensions ==> DotName(ext)
  {
    LineDotNames1();
    LineDotNames2();
    LineDotNames3();
    LineDotNames4();
    LineDotNames5();
    LineDotNames6();
  }

  /** Two ways of cutting a text at a dot with a dot-free tail cut at the same (last) dot. */
  lemma LastDotUnique(s: string, a: string, t: string, b: string, e: string)
    requires s == a + ['.'] + t && s == b + ['.'] + e
    requires '.' !in t && '.' !in e
    ensures t == e
  {
    assert s[|a|] == '.' && s[|b|] == '.';
    assert forall i :: |a| < i < |s| ==> s[i] == t[i - |a| - 1];
    assert forall i :: |b| < i < |s| ==> s[i] == e[i - |b| - 1];
    assert |a| == |b|;
    assert t == s[|a| + 1..];
  }

  /** `file_extension` is the text after the last dot. */
  lemma ExtensionAfterLastDot(prefix: string, base: string)
    requires '.' !in base
    ensures FileExtension(prefix + ['.'] + base) == base
  {
    var s := prefix + ['.'] + base;
    assert s[|prefix|] == '.';
    var e := FileExtension(s);
    LastDotUnique(s, prefix, base, s[..|s| - |e| - 1], e);
  }

  /** A name ending with a dot name has that dot name as its extension. */
  lemma ExtensionOfSuffix(name: string, ext: string)
    requires DotName(ext) && EndsWith(name, ext)
    ensures '.' in name && "." + FileExtension(name) == ext
  {
    var a := name[..|name| - |ext|];
    assert name == a + ['.'] + ext[1..];
    assert name[|a|] == '.';
    ExtensionAfterLastDot(a, ext[1..]);
  }

  /** A name with a dot ends with its extension, dot included. */
  lemma EndsWithExtension(name: string)
    requires '.' in name
    ensures EndsWith(name, "." + FileExtension(name))
  {
    var e := FileExtension(name);
    assert name[|name| - |e| - 1..] == "." + e;
  }

  /** A name ends with a listed extension exactly when its own extension, dot included, is listed. */
  lemma ListedSuffixIsExtension(name: string)
    ensures (exists ext | ext in TextExtensions :: EndsWith(name, ext))
        <==> '.' in name && "." + FileExtension(name) in TextExtensions
  {
    if '.' in name {
      EndsWithExtension(name);
    }
    if exists ext | ext in TextExtensions :: EndsWith(name, ext) {
      var ext :| ext in TextExtensions && EndsWith(name, ext);
      ExtensionsAreDotNames();
      ExtensionOfSuffix(name, ext);
    }
  }

  /** The test is case-sensitive: `.r` and `.R` are both listed, `.PY` is not. */
  lemma TextFileCases(stem: string)
    ensures IsTextFile(stem + ".r") && IsTextFile(stem + ".R")
    ensures !IsTextFile(stem + ".PY")
  {
    ListedEnding(stem, ".r");
    ListedEnding(stem, ".R");
    ExtensionOfSuffix(stem + ".PY", ".PY");
    UpperPyNotListed();
  }

  lemma ListedEnding(stem: string, ext: string)
    requires ext in TextExtensions
    ensures IsTextFile(stem + ext)
  {
    assert EndsWith(stem + ext, ext);
  }

  lemma UpperPyNotListed()
    ensures ".PY" !in TextExtensions
  {
    UpperPyNotOnFirstLines();
    UpperPyNotOnLastLines();
  }

  // The two halves of the list are checked apart to keep each proof small.
  lemma UpperPyNotOnFirstLines()
    ensures ".PY" !in ExtensionsLine1 + ExtensionsLine2 + ExtensionsLine3
  {
    assert ".PY" !in ExtensionsLine1;
    assert ".PY" !in ExtensionsLine2;
  }

  lemma UpperPyNotOnLastLines()
    ensures ".PY" !in ExtensionsLine4 + ExtensionsLine5 + ExtensionsLine6
  {
    assert ".PY" !in ExtensionsLine4;
    assert ".PY" !in ExtensionsLine5;
  }

  /** A name without a dot is never a text file. */
  lemma NoDotNoText(stem: string)
    ensures '.' !in stem ==> !IsTextFile(stem)
  {
  }
}
