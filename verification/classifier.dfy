/** Content classification of an uploaded file by the extension of its name.

    The upload handler takes the extension with `os.path.splitext`, lower-cases
    it and looks it up in two fixed extension tables. Names are POSIX paths
    here: `/` is the only separator. */
module Classifier {

  /** The content family an upload falls into. */
  datatype Family = Image | Document | Unsupported

  const IMAGE_EXTENSIONS: set<string> := {".jpg", ".jpeg", ".png", ".bmp", ".gif", ".tiff"}
  const DOCUMENT_EXTENSIONS: set<string> := {".pdf", ".docx", ".txt"}

  /** Lower-cases one character; only the ASCII letters `A`..`Z` change. */
  function LowerChar(c: char): char
  {
    if 'A' <= c <= 'Z' then (c as int - 'A' as int + 'a' as int) as char else c
  }

  /** Lower-cases a whole string, character by character: only the ASCII
      capitals change, each to its small letter, and none is left. */
  function Lower(s: string): (r: string)
    ensures |r| == |s|
    ensures forall i :: 0 <= i < |s| && !('A' <= s[i] <= 'Z') ==> r[i] == s[i]
    ensures forall i :: 0 <= i < |s| && 'A' <= s[i] <= 'Z' ==> 'a' <= r[i] <= 'z' && r[i] as int - s[i] as int == 32
    ensures forall i :: 0 <= i < |r| ==> !('A' <= r[i] <= 'Z')
  {
    seq(|s|, i requires 0 <= i < |s| => LowerChar(s[i]))
  }

  /** Lower-casing twice is lower-casing once. */
  lemma LowerIdempotent(s: string)
    ensures Lower(Lower(s)) == Lower(s)
  {
  }

  /** The last path component of `path` has a character other than `.`. */
  predicate HasNonDotInLastComponent(path: string)
  {
    if path == [] then false
    else
      var c := path[|path| - 1];
      if c == '/' then false
      else if c != '.' then true
      else HasNonDotInLastComponent(path[..|path| - 1])
  }

  /** The extension `os.path.splitext` splits off a POSIX path: from the last
      dot of the last path component to the end, unless everything before
      that dot in the component is dots (so `.jpg` and `..jpg` have none).
      Computed by scanning from the end of the path. */
  function Extension(path: string): string
  {
    if path == [] then ""
    else
      var c, rest := path[|path| - 1], path[..|path| - 1];
      if c == '/' then ""
      else if c == '.' then (if HasNonDotInLastComponent(rest) then "." else "")
      else
        var ext := Extension(rest);
        if ext == "" then "" else ext + [c]
  }

  /** The family the upload handler assigns to a file name: the lower-cased
      extension is looked up among the image extensions first, then among the
      document extensions. */
  function Classify(filename: string): Family
  {
    var ext := Lower(Extension(filename));
    if ext in IMAGE_EXTENSIONS then Image
    else if ext in DOCUMENT_EXTENSIONS then Document
    else Unsupported
  }

  /** An extension is empty or a suffix of the name that starts with its
      only dot and holds no `/`. */
  lemma {:induction false} ExtensionShape(path: string)
    ensures var ext := Extension(path);
      && |ext| <= |path| && ext == path[|path| - |ext|..]
      && (ext == [] || ext[0] == '.')
      && forall j :: 0 < j < |ext| ==> ext[j] != '.' && ext[j] != '/'
  {
    if path != [] {
      var c, rest := path[|path| - 1], path[..|path| - 1];
      if c != '/' && c != '.' {
        ExtensionShape(rest);
        var ext := Extension(rest);
        if ext != "" {
          assert path == rest + [c];
        }
      }
    }
  }

  /** Lower-casing commutes with dropping the last character. */
  lemma LowerInit(s: string)
    requires s != []
    ensures Lower(s)[..|s| - 1] == Lower(s[..|s| - 1])
  {
  }

  /** Lower-casing keeps the dots and slashes where they are. */
  lemma {:induction false} HasNonDotLower(path: string)
    ensures HasNonDotInLastComponent(Lower(path)) == HasNonDotInLastComponent(path)
  {
    if path != [] {
      LowerInit(path);
      HasNonDotLower(path[..|path| - 1]);
    }
  }

  /** Taking the extension commutes with lower-casing. */
  lemma {:induction false} ExtensionOfLower(path: string)
    ensures Extension(Lower(path)) == Lower(Extension(path))
  {
    if path != [] {
      var rest := path[..|path| - 1];
      LowerInit(path);
      HasNonDotLower(rest);
      ExtensionOfLower(rest);
      var ext := Extension(rest);
      if ext != "" {
        assert Lower(ext + [path[|path| - 1]]) == Lower(ext) + [LowerChar(path[|path| - 1])];
      }
    }
  }

  /** Extension matching ignores case: names that agree once lower-cased fall
      into the same family. */
  lemma ClassifyIgnoresCase(a: string, b: string)
    requires Lower(a) == Lower(b)
    ensures Classify(a) == Classify(b)
  {
    ExtensionOfLower(a);
    ExtensionOfLower(b);
  }

  /** The two extension tables are disjoint, so the order of the two lookups
      in the handler never decides a name's family; and the family is exactly
      the table the lower-cased extension belongs to. */
  lemma ClassifyByTable(filename: string)
    ensures Classify(filename) == Image <==> Lower(Extension(filename)) in IMAGE_EXTENSIONS
    ensures Classify(filename) == Document <==> Lower(Extension(filename)) in DOCUMENT_EXTENSIONS
    ensures Classify(filename) == Unsupported <==>
              Lower(Extension(filename)) !in IMAGE_EXTENSIONS + DOCUMENT_EXTENSIONS
  {
    assert IMAGE_EXTENSIONS !! DOCUMENT_EXTENSIONS;
  }

  /** The extension of `stem.suffix` is `.suffix` when the last component of
      the stem has a character other than a dot and the suffix holds neither
      a dot nor a slash. */
  lemma {:induction false} ExtensionOfDottedName(stem: string, suffix: string)
    requires HasNonDotInLastComponent(stem)
    requires forall i :: 0 <= i < |suffix| ==> suffix[i] != '.' && suffix[i] != '/'
    ensures Extension(stem + "." + suffix) == "." + suffix
  {
    var path := stem + "." + suffix;
    if suffix == [] {
      assert path[..|path| - 1] == stem;
    } else {
      var n := |suffix| - 1;
      ExtensionOfDottedName(stem, suffix[..n]);
      assert path[..|path| - 1] == stem + "." + suffix[..n];
      assert "." + suffix == ("." + suffix[..n]) + [suffix[n]];
    }
  }

  /** The extension's case does not matter. */
  lemma ClassifyUpperCaseImage()
    ensures Classify("IMG.JPG") == Image
  {
    ExtensionOfDottedName("IMG", "JPG");
    assert "IMG" + "." + "JPG" == "IMG.JPG";
    assert Extension("IMG.JPG") == ".JPG";
    assert Lower(".JPG") == ".jpg" && ".jpg" in IMAGE_EXTENSIONS;
  }

  /** A name that is only a dot and an extension has no extension. */
  lemma ClassifyLeadingDot()
    ensures Classify(".png") == Unsupported
  {
    assert ".png"[..3] == ".pn" && ".pn"[..2] == ".p" && ".p"[..1] == ".";
    assert Extension(".png") == "";
  }

  /** Only the last dot counts. */
  lemma ClassifyLastDot()
    ensures Classify("report.tar.PDF") == Document
  {
    ExtensionOfDottedName("report.tar", "PDF");
    assert "report.tar" + "." + "PDF" == "report.tar.PDF";
    assert Extension("report.tar.PDF") == ".PDF";
    assert Lower(".PDF") == ".pdf" && ".pdf" !in IMAGE_EXTENSIONS && ".pdf" in DOCUMENT_EXTENSIONS;
  }

  /** An extension in neither table is unsupported. */
  lemma ClassifyUnknownExtension()
    ensures Classify("notes.xyz") == Unsupported
  {
    ExtensionOfDottedName("notes", "xyz");
    assert "notes" + "." + "xyz" == "notes.xyz";
    assert Extension("notes.xyz") == ".xyz";
    assert Lower(".xyz") == ".xyz" && ".xyz" !in IMAGE_EXTENSIONS + DOCUMENT_EXTENSIONS;
  }
}
