/** The checks `main` makes before any I/O and the default output file name
    (main.go:58-68, 85-89). */
module Cli {
  import opened Paths

  /** The two usage errors that end the program with exit code 1 before any
      file is opened. */
  datatype UsageError = MissingInput | UnsupportedFormat

  datatype Outcome = Pass | Fail(error: UsageError)

  predicate EndsWith(s: string, suffix: string) {
    |suffix| <= |s| && s[|s| - |suffix|..] == suffix
  }

  /** The exact extensions accepted, compared case-sensitively. */
  predicate IsSupportedExt(e: string) {
    e == ".png" || e == ".jpg" || e == ".jpeg"
  }

  /** `x` has the shape of an extension: `.` followed by characters that are
      neither `.` nor `/`. */
  predicate ExtShaped(x: string) {
    0 < |x| && x[0] == '.' && forall k :: 0 < k < |x| ==> x[k] != '.' && x[k] != '/'
  }

  /** A path ending in an extension-shaped `x` has a final element that also
      ends in `x`. */
  lemma LastElementKeepsSuffix(p: string, x: string)
    requires EndsWith(p, x) && ExtShaped(x)
    ensures EndsWith(LastElement(p), x)
  {
    var n := |p| - |x|;
    assert forall j :: n <= j < |p| ==> p[j] == x[j - n];
    LastIndexBelow(p, '/', |p|, n);
    var l := LastElement(p);
    assert l[|l| - |x|..] == p[n..];
  }

  /** `Ext(p)` is an extension-shaped `x` exactly when `p` ends with `x`. */
  lemma ExtMatchesSuffix(p: string, x: string)
    requires ExtShaped(x)
    ensures Ext(p) == x <==> EndsWith(p, x)
  {
    if EndsWith(p, x) {
      var n := |p| - |x|;
      assert forall j :: n <= j < |p| ==> p[j] == x[j - n];
      LastIndexAt(p, '.', |p|, n);
      LastIndexBelow(p, '/', |p|, n);
      assert Ext(p) == p[n..];
    }
  }

  /** The checks of main.go:58-68. An empty `-i` is a missing input; otherwise
      the input is accepted exactly when its path ends with `.png`, `.jpg` or
      `.jpeg`, letter case included, so `.PNG` and `.gif` are refused. */
  function CheckInput(input: string): (r: Outcome)
    ensures r == Fail(MissingInput) <==> input == ""
    ensures r == Pass <==> input != "" && IsSupportedExt(Ext(input))
    ensures r == Pass <==> EndsWith(input, ".png") || EndsWith(input, ".jpg") || EndsWith(input, ".jpeg")
    ensures r != Pass ==> r.Fail?
  {
    if input == "" then Fail(MissingInput)
    else
      ExtMatchesSuffix(input, ".png");
      ExtMatchesSuffix(input, ".jpg");
      ExtMatchesSuffix(input, ".jpeg");
      if IsSupportedExt(Ext(input)) then Pass else Fail(UnsupportedFormat)
  }

  /** The default output name of main.go:86-88: the input's base name with its
      extension cut off, followed by `.ico`. The result ends with `.ico`, and its
      stem put back together with the extension is the base name again. */
  function DefaultOutputName(input: string): (r: string)
    ensures EndsWith(r, ".ico")
    ensures r[..|r| - 4] + Ext(Base(input)) == Base(input)
  {
    var b := Base(input);
    var e := Ext(b);
    var stem := b[..|b| - |e|];
    ExtSplits(b);
    var r := stem + ".ico";
    assert r[..|r| - 4] == stem && r[|r| - 4..] == ".ico";
    r
  }

  /** The output path `main` writes to (main.go:85-89): a non-empty `-o` is used
      unchanged, an empty one gets the default name. */
  function OutputName(input: string, output: string): (r: string)
    ensures output != "" ==> r == output
    ensures output == "" ==> r == DefaultOutputName(input)
  {
    if output == "" then DefaultOutputName(input) else output
  }

  /** A path that ends in an extension-shaped `x` has the base name of its
      final element, and that base name has the same extension `x`. */
  lemma BaseKeepsExt(input: string, x: string)
    requires ExtShaped(x)
    requires EndsWith(input, x)
    ensures Base(input) == LastElement(input)
    ensures Ext(Base(input)) == x == Ext(input)
  {
    assert input[|input| - 1] == x[|x| - 1];
    assert StripTrailingSlashes(input) == input;
    LastElementKeepsSuffix(input, x);
    ExtMatchesSuffix(input, x);
    ExtMatchesSuffix(LastElement(input), x);
  }

  /** For a path ending in an extension-shaped `x`, the default output name
      is its final element with `x` replaced by `.ico`. */
  lemma DefaultNameOfExt(input: string, x: string)
    requires ExtShaped(x) && EndsWith(input, x)
    ensures DefaultOutputName(input) == LastElement(input)[..|LastElement(input)| - |x|] + ".ico"
  {
    BaseKeepsExt(input, x);
  }

  /** A prefix of a string without `/`, followed by `.ico`, has no `/`. */
  lemma IcoNameHasNoSlash(s: string, n: nat, r: string)
    requires '/' !in s && n <= |s| && r == s[..n] + ".ico"
    ensures '/' !in r
  {
    assert forall k :: 0 <= k < n ==> s[..n][k] == s[k];
  }

  /** The default output name has a `/` exactly when the base name is `/`
      itself, that is when the input is non-empty and consists of slashes
      only; the name is then `/.ico`. */
  lemma DefaultNameSlash(input: string)
    ensures '/' in DefaultOutputName(input) <==> Base(input) == "/"
    ensures Base(input) == "/" <==> input != [] && forall k :: 0 <= k < |input| ==> input[k] == '/'
  {
    var b := Base(input);
    var e := Ext(b);
    if b != "/" {
      IcoNameHasNoSlash(b, |b| - |e|, DefaultOutputName(input));
    } else {
      assert e == [];
      assert DefaultOutputName(input)[0] == '/';
    }
  }

  /** The default output name of a path ending in an extension-shaped `x`
      has no `/`: it names a file in the current directory. */
  lemma DefaultNameHasNoSlash(input: string, x: string)
    requires ExtShaped(x) && EndsWith(input, x)
    ensures '/' !in DefaultOutputName(input)
  {
    BaseKeepsExt(input, x);
    assert Base(input) != "/" by {
      assert '/' !in LastElement(input);
    }
    DefaultNameSlash(input);
  }

  /** For a path ending in an extension-shaped `x`, the default output name
      has no `/` and is the base name with `x` replaced by `.ico`. It joins
      three smaller lemmas so that each proof obligation unfolds only a few of
      `LastElement`, `Ext` and `DefaultOutputName` at a time. */
  lemma ReplacedExt(input: string, x: string)
    requires ExtShaped(x) && EndsWith(input, x)
    ensures '/' !in DefaultOutputName(input)
    ensures Base(input) == LastElement(input)
    ensures Ext(Base(input)) == x == Ext(input)
    ensures DefaultOutputName(input) == Base(input)[..|Base(input)| - |x|] + ".ico"
  {
    BaseKeepsExt(input, x);
    DefaultNameOfExt(input, x);
    DefaultNameHasNoSlash(input, x);
  }

  /** The default output name of a path with a supported extension. It is
      kept apart from `AcceptedDefaultOutputName` so that the case split over
      the three extensions never sees `CheckInput`, which keeps the solver's
      work small. */
  lemma SupportedDefaultOutputName(input: string)
    requires EndsWith(input, ".png") || EndsWith(input, ".jpg") || EndsWith(input, ".jpeg")
    ensures '/' !in DefaultOutputName(input)
    ensures Ext(Base(input)) == Ext(input)
    ensures DefaultOutputName(input)
      == Base(input)[..|Base(input)| - |Ext(input)|] + ".ico"
  {
    var x := if EndsWith(input, ".png") then ".png"
             else if EndsWith(input, ".jpg") then ".jpg" else ".jpeg";
    assert IsSupportedExt(x) && EndsWith(input, x);
    SupportedIsShaped(x);
    ReplacedExt(input, x);
  }

  /** For an accepted input, the default output name lies in the current
      directory (it has no `/`), ends with `.ico`, and is the base name with
      the input's own extension replaced by `.ico`. Acceptance unfolds to the
      suffix test here, and the name itself is settled by
      `SupportedDefaultOutputName`. */
  lemma AcceptedDefaultOutputName(input: string)
    requires CheckInput(input) == Pass
    ensures '/' !in DefaultOutputName(input)
    ensures EndsWith(DefaultOutputName(input), ".ico")
    ensures Ext(Base(input)) == Ext(input)
    ensures DefaultOutputName(input)
      == Base(input)[..|Base(input)| - |Ext(input)|] + ".ico"
  {
    SupportedDefaultOutputName(input);
  }

  /** A path ending in a supported extension is accepted. */
  lemma SupportedPasses(input: string, x: string)
    requires IsSupportedExt(x) && EndsWith(input, x)
    ensures CheckInput(input) == Pass
  {
    if x == ".png" {
      assert EndsWith(input, ".png");
    } else if x == ".jpg" {
      assert EndsWith(input, ".jpg");
    } else {
      assert EndsWith(input, ".jpeg");
    }
  }

  /** A suffix of a path's final element is a suffix of the path. */
  lemma ElementSuffix(p: string, name: string, x: string)
    requires LastElement(p) == name && EndsWith(name, x)
    ensures EndsWith(p, x)
  {
    assert p[|p| - |name|..] == name;
    assert p[|p| - |x|..] == name[|name| - |x|..];
  }

  /** Each supported extension has the shape of an extension. */
  lemma SupportedIsShaped(x: string)
    requires IsSupportedExt(x)
    ensures ExtShaped(x)
  {
  }

  /** Without `-o`, an input whose final element is `stem + x`, for an
      extension-shaped `x`, is written to `stem + ".ico"`. */
  lemma ElementToIco(input: string, stem: string, x: string)
    requires ExtShaped(x) && LastElement(input) == stem + x
    ensures OutputName(input, "") == stem + ".ico"
  {
    var name := stem + x;
    assert name[..|name| - |x|] == stem && EndsWith(name, x);
    ElementSuffix(input, name, x);
    DefaultNameOfExt(input, x);
  }

  /** An input whose final element ends in a supported extension is
      accepted. */
  lemma ElementPasses(input: string, name: string, x: string)
    requires IsSupportedExt(x) && LastElement(input) == name && EndsWith(name, x)
    ensures CheckInput(input) == Pass
  {
    ElementSuffix(input, name, x);
    SupportedPasses(input, x);
  }

  /** An input `stem + x` with a supported extension `x` and no directory is
      accepted, and without `-o` it is written to `stem + ".ico"`. */
  lemma NameToIco(stem: string, x: string)
    requires '/' !in stem && IsSupportedExt(x)
    ensures CheckInput(stem + x) == Pass
    ensures OutputName(stem + x, "") == stem + ".ico"
  {
    assert '/' !in stem + x && EndsWith(stem + x, x);
    LastElementOfName(stem + x);
    SupportedIsShaped(x);
    ElementPasses(stem + x, stem + x, x);
    ElementToIco(stem + x, stem, x);
  }

  /** The directory of an input `dir/stem + x` with a supported extension `x`
      is dropped: without `-o` it is written to `stem + ".ico"` in the current
      directory. */
  lemma PathToIco(dir: string, stem: string, x: string)
    requires '/' !in stem && IsSupportedExt(x)
    ensures CheckInput(dir + "/" + stem + x) == Pass
    ensures OutputName(dir + "/" + stem + x, "") == stem + ".ico"
  {
    assert '/' !in stem + x;
    assert dir + "/" + stem + x == dir + "/" + (stem + x);
    LastElementAfterSlash(dir, stem + x);
    assert EndsWith(stem + x, x);
    SupportedIsShaped(x);
    ElementPasses(dir + "/" + stem + x, stem + x, x);
    ElementToIco(dir + "/" + stem + x, stem, x);
  }

  /** `photo.jpg` is accepted (and, by `NameToIco`, written to `photo.ico`
      when `-o` is empty); with `-o out/app.ico` that path is used as it is. */
  lemma PhotoScenario()
    ensures CheckInput("photo.jpg") == Pass
    ensures OutputName("photo.jpg", "out/app.ico") == "out/app.ico"
  {
    assert EndsWith("photo.jpg", ".jpg");
  }

  /** An unsupported or differently cased extension, or no input at all, is
      refused before any file is opened. */
  lemma RefusedScenarios()
    ensures CheckInput("icon.gif") == Fail(UnsupportedFormat)
    ensures CheckInput("icon.PNG") == Fail(UnsupportedFormat)
    ensures CheckInput("archive.png.zip") == Fail(UnsupportedFormat)
    ensures CheckInput("") == Fail(MissingInput)
  {
    assert !EndsWith("icon.gif", ".png") && !EndsWith("icon.gif", ".jpg") && !EndsWith("icon.gif", ".jpeg");
    assert !EndsWith("icon.PNG", ".png") && !EndsWith("icon.PNG", ".jpg") && !EndsWith("icon.PNG", ".jpeg");
    assert !EndsWith("archive.png.zip", ".png") && !EndsWith("archive.png.zip", ".jpg");
    assert !EndsWith("archive.png.zip", ".jpeg");
  }
}
