/** The check main.go makes on the input and output paths before reading or writing:
    isValidTxtFile, with filepath.Base for slash-separated paths. */
module FileName {

  import opened Text

  /** The text before any trailing slashes. */
  function StripSlashes(p: string): (r: string)
    ensures |r| <= |p| && r == p[..|r|]
    ensures r == [] || r[|r| - 1] != '/'
    ensures forall k :: |r| <= k < |p| ==> p[k] == '/'
  {
    if |p| > 0 && p[|p| - 1] == '/' then StripSlashes(p[..|p| - 1]) else p
  }

  /** Where the last path element of p starts: just past its last slash, or 0. */
  function ElementStart(p: string): (a: nat)
    ensures a <= |p|
    ensures a == 0 || p[a - 1] == '/'
    ensures forall k :: a <= k < |p| ==> p[k] != '/'
  {
    RunStartAll(p, |p|, Except('/'));
    RunStart(p, |p|, Except('/'))
  }

  /** filepath.Base on a Unix path: "." for the empty path, "/" for a path of slashes only,
      otherwise the last element once trailing slashes are dropped. */
  function Base(path: string): (r: string)
    ensures |r| > 0
    ensures r != "/" ==> forall k :: 0 <= k < |r| ==> r[k] != '/'
  {
    if path == [] then "."
    else
      var p := StripSlashes(path);
      var e := p[ElementStart(p)..];
      if e == [] then "/" else e
  }

  /** isValidTxtFile: the lower-cased name ends with ".txt" and its base name neither is
      ".txt" nor starts with a dot. */
  predicate IsValidTxtFile(filename: string)
  {
    var base := Base(filename);
    HasSuffix(Lower(filename), ".txt") && !(base == ".txt" || HasPrefix(base, "."))
  }

  /** The last element of a name that does not end in a slash: the text after its last slash. */
  function LastElement(name: string): (r: string)
    ensures |r| <= |name| && r == name[|name| - |r|..]
  {
    name[ElementStart(name)..]
  }

  /** Lower-casing commutes with slicing. */
  lemma LowerSlice(s: string, a: nat, b: nat)
    requires a <= b <= |s|
    ensures Lower(s)[a..b] == Lower(s[a..b])
  {
  }

  /** A name whose lower-cased form ends with ".txt" holds no slash in its last four chars. */
  lemma TxtTail(filename: string)
    requires HasSuffix(Lower(filename), ".txt")
    ensures Lower(filename[|filename| - 4..]) == ".txt"
    ensures forall k :: |filename| - 4 <= k < |filename| ==> filename[k] != '/'
  {
    var n := |filename|;
    LowerSlice(filename, n - 4, n);
    var t := Lower(filename)[n - 4..];
    assert t[0] == '.' && t[1] == 't' && t[2] == 'x' && t[3] == 't';
    assert Lower(filename)[n - 4] == '.' && Lower(filename)[n - 3] == 't';
    assert Lower(filename)[n - 2] == 'x' && Lower(filename)[n - 1] == 't';
  }

  /** A path whose last m chars hold no slash has no trailing slash and a last element of
      at least those m chars. */
  lemma SlashFreeTail(p: string, m: nat)
    requires 0 < m <= |p|
    requires forall k :: |p| - m <= k < |p| ==> p[k] != '/'
    ensures StripSlashes(p) == p
    ensures ElementStart(p) + m <= |p|
  {
    assert p[|p| - 1] != '/';
  }

  /** The condition on the last element of a name that isValidTxtFile amounts to. */
  predicate VisibleTxt(e: string)
  {
    |e| > 4 && Lower(e[|e| - 4..]) == ".txt" && e[0] != '.'
  }

  /** When the name ends with ".txt" in any case mix, its base name is its last element. */
  lemma TxtBase(filename: string)
    requires HasSuffix(Lower(filename), ".txt")
    ensures Base(filename) == LastElement(filename)
    ensures |LastElement(filename)| >= 4
    ensures Lower(LastElement(filename)[|LastElement(filename)| - 4..]) == ".txt"
  {
    TxtTail(filename);
    SlashFreeTail(filename, 4);
    var e := LastElement(filename);
    assert e[|e| - 4..] == filename[|filename| - 4..];
  }

  /** For an element that ends with ".txt" in any case mix, the two base-name tests of
      isValidTxtFile amount to VisibleTxt. */
  lemma ElementTests(e: string)
    requires |e| >= 4 && Lower(e[|e| - 4..]) == ".txt"
    ensures !(e == ".txt" || HasPrefix(e, ".")) <==> VisibleTxt(e)
  {
    if |e| == 4 {
      assert Lower(e)[0] == '.';
    } else {
      assert e != ".txt";
      assert HasPrefix(e, ".") <==> e[0] == '.';
    }
  }

  /** With the ".txt" ending present, the base-name tests amount to the element tests. */
  lemma TxtSuffixCase(filename: string)
    requires HasSuffix(Lower(filename), ".txt")
    ensures IsValidTxtFile(filename) <==> VisibleTxt(LastElement(filename))
  {
    var e := LastElement(filename);
    TxtBase(filename);
    assert IsValidTxtFile(filename) <==> !(e == ".txt" || HasPrefix(e, "."));
    ElementTests(e);
  }

  /** Without the ".txt" ending, no last element can end with it either. */
  lemma NoTxtSuffixCase(filename: string)
    requires !HasSuffix(Lower(filename), ".txt")
    ensures !VisibleTxt(LastElement(filename))
  {
  }

  /** A file name is accepted exactly when its text after the last slash is longer than
      ".txt", ends with ".txt" in any case mix, and does not start with a dot: there is a
      visible name before the extension. */
  lemma ValidTxtFileIff(filename: string)
    ensures IsValidTxtFile(filename) <==> VisibleTxt(LastElement(filename))
  {
    if HasSuffix(Lower(filename), ".txt") {
      TxtSuffixCase(filename);
    } else {
      NoTxtSuffixCase(filename);
    }
  }

  /** The last element starts just past the last slash. */
  lemma ElementStartIs(p: string, a: nat)
    requires a <= |p| && (a == 0 || p[a - 1] == '/')
    requires forall k :: a <= k < |p| ==> p[k] != '/'
    ensures ElementStart(p) == a
  {
    RunStartUnique(p, |p|, Except('/'), a);
  }

  /** A name without a slash is its own last element. */
  lemma ElementNoSlash(f: string)
    requires '/' !in f
    ensures LastElement(f) == f
  {
    ElementStartIs(f, 0);
  }

  /** The last element of dir/f, for f without a slash, is f. */
  lemma ElementAfterSlash(d: string, f: string)
    requires '/' !in f
    ensures LastElement(d + "/" + f) == f
  {
    var p := d + "/" + f;
    forall k | |d| + 1 <= k < |p| ensures p[k] != '/' {
      assert p[k] == f[k - |d| - 1];
    }
    ElementStartIs(p, |d| + 1);
  }

  /** Only the last element matters: a directory part neither helps nor hurts. */
  lemma DirectoryIrrelevant(d: string, f: string)
    requires '/' !in f
    ensures IsValidTxtFile(d + "/" + f) <==> IsValidTxtFile(f)
  {
    ValidTxtFileIff(d + "/" + f);
    ElementAfterSlash(d, f);
    ValidTxtFileIff(f);
    ElementNoSlash(f);
  }

  /** The extension is compared without regard to case: "a.TXT" is accepted like "a.txt". */
  lemma ExtensionCaseIgnored(stem: string, ext: string)
    requires |ext| == 4 && Lower(ext) == ".txt"
    ensures IsValidTxtFile(stem + ext) <==> IsValidTxtFile(stem + ".txt")
  {
    assert Lower(ext)[0] == '.' && Lower(ext)[1] == 't' && Lower(ext)[2] == 'x' && Lower(ext)[3] == 't';
    assert '/' !in ext;
    ElementAppend(stem, ext);
    ElementAppend(stem, ".txt");
    ValidTxtFileIff(stem + ext);
    ValidTxtFileIff(stem + ".txt");
    VisibleTail(LastElement(stem), ext);
  }

  /** Any case mix of the extension after the same element passes VisibleTxt alike. */
  lemma VisibleTail(l: string, ext: string)
    requires |ext| == 4 && Lower(ext) == ".txt"
    ensures VisibleTxt(l + ext) <==> VisibleTxt(l + ".txt")
  {
    var a, b := l + ext, l + ".txt";
    assert a[|a| - 4..] == ext && b[|b| - 4..] == ".txt";
    assert Lower(ext)[0] == '.';
  }

  /** Appending a slash-free tail to a name appends it to the last element. */
  lemma ElementAppend(stem: string, x: string)
    requires '/' !in x
    ensures LastElement(stem + x) == LastElement(stem) + x
  {
    var p := stem + x;
    var a := ElementStart(stem);
    forall k | a <= k < |p| ensures p[k] != '/' {
      if k >= |stem| {
        assert p[k] == x[k - |stem|];
      }
    }
    ElementStartIs(p, a);
  }

  /** A name whose last element starts with a dot is refused, ".txt" itself included. */
  lemma HiddenRefused(filename: string)
    requires |LastElement(filename)| > 0 && LastElement(filename)[0] == '.'
    ensures !IsValidTxtFile(filename)
  {
    ValidTxtFileIff(filename);
  }

  /** ".txt" is already lower case. */
  lemma LowerTxt()
    ensures Lower(".txt") == ".txt"
  {
    var t := ".txt";
    assert !IsUpper(t[0]) && !IsUpper(t[1]) && !IsUpper(t[2]) && !IsUpper(t[3]);
    assert Lower(t)[0] == t[0] && Lower(t)[1] == t[1] && Lower(t)[2] == t[2] && Lower(t)[3] == t[3];
  }

  /** A name with a visible stem before ".txt" is accepted, in any directory. */
  lemma VisibleAccepted(d: string, stem: string)
    requires |stem| > 0 && stem[0] != '.' && '/' !in stem
    ensures IsValidTxtFile(stem + ".txt")
    ensures IsValidTxtFile(d + "/" + stem + ".txt")
  {
    var f := stem + ".txt";
    assert '/' !in f;
    ElementNoSlash(f);
    ValidTxtFileIff(f);
    assert f[|f| - 4..] == ".txt";
    LowerTxt();
    assert d + "/" + stem + ".txt" == d + "/" + f;
    DirectoryIrrelevant(d, f);
  }
}
