/** How `execute` names each output file: the format chosen in the
    "Convert to" box gives the suffix "." + lower-case label, the source's
    final component gets that suffix, and the result is joined onto the
    destination directory. */
module Naming {
  import opened Paths

  /** The entries of the "Convert to" combo box. */
  datatype Format = JPEG | WEBP | PNG | GIF | BMP | TIFF | ICO

  /** The text the combo box shows for a format. */
  function Label(f: Format): string {
    match f
    case JPEG => "JPEG"
    case WEBP => "WEBP"
    case PNG => "PNG"
    case GIF => "GIF"
    case BMP => "BMP"
    case TIFF => "TIFF"
    case ICO => "ICO"
  }

  function LowerChar(c: char): char {
    if 'A' <= c <= 'Z' then (c as int - 'A' as int + 'a' as int) as char else c
  }

  /** `str.lower` on ASCII text: upper-case letters become lower-case,
      everything else is kept. */
  function Lower(s: string): string {
    seq(|s|, i requires 0 <= i < |s| => LowerChar(s[i]))
  }

  /** Every label is a non-empty run of upper-case letters. */
  lemma LabelLetters(f: Format)
    ensures |Label(f)| >= 1 && forall i :: 0 <= i < |Label(f)| ==> 'A' <= Label(f)[i] <= 'Z'
  {
  }

  /** The suffix given to every output file of a run: a dot and the
      lower-cased label. It is a suffix `with_suffix` accepts and `suffix`
      reads back whole: a dot, then at least one character, no further dot. */
  function Extension(f: Format): (ext: string)
    ensures ValidSuffix(ext)
    ensures |ext| >= 2 && ext[0] == '.' && '.' !in ext[1..]
  {
    var low := Lower(Label(f));
    LabelLetters(f);
    assert forall i :: 0 <= i < |low| ==> 'a' <= low[i] <= 'z';
    assert ("." + low)[1..] == low;
    "." + low
  }

  /** The extension of each format; JPEG gives ".jpeg", not ".jpg". */
  lemma ExtensionTable(f: Format)
    ensures Extension(f) == match f
      case JPEG => ".jpeg"
      case WEBP => ".webp"
      case PNG => ".png"
      case GIF => ".gif"
      case BMP => ".bmp"
      case TIFF => ".tiff"
      case ICO => ".ico"
  {
    match f
    case JPEG =>
      assert forall i :: 0 <= i < 4 ==> Lower("JPEG")[i] == "jpeg"[i];
    case WEBP =>
      assert forall i :: 0 <= i < 4 ==> Lower("WEBP")[i] == "webp"[i];
    case PNG =>
      assert forall i :: 0 <= i < 3 ==> Lower("PNG")[i] == "png"[i];
    case GIF =>
      assert forall i :: 0 <= i < 3 ==> Lower("GIF")[i] == "gif"[i];
    case BMP =>
      assert forall i :: 0 <= i < 3 ==> Lower("BMP")[i] == "bmp"[i];
    case TIFF =>
      assert forall i :: 0 <= i < 4 ==> Lower("TIFF")[i] == "tiff"[i];
    case ICO =>
      assert forall i :: 0 <= i < 3 ==> Lower("ICO")[i] == "ico"[i];
  }

  /** Different formats never share an extension. */
  lemma ExtensionInjective(f: Format, g: Format)
    requires Extension(f) == Extension(g)
    ensures f == g
  {
    ExtensionTable(f);
    ExtensionTable(g);
  }

  /** `f.with_suffix(suffix).name`; None where `with_suffix` raises because
      the source's name is empty. */
  function OutputName(p: Path, f: Format): Option<string> {
    match WithSuffix(p, Extension(f))
    case None => None
    case Some(q) => Some(Name(q))
  }

  /** `path.join(destination, new_file)`. */
  function OutputPath(dir: string, p: Path, f: Format): Option<string> {
    match OutputName(p, f)
    case None => None
    case Some(n) => Some(Join(dir, n))
  }

  /** `with_suffix` raises, and there is no output path, exactly for a
      source whose name is empty. */
  lemma OutputPathDefined(dir: string, p: Path, f: Format)
    ensures OutputPath(dir, p, f).Some? <==> Name(p) != ""
  {
  }

  /** The output name exists exactly when the source has a name; it is the
      source's stem followed by the format's extension, and reading its stem
      and suffix back gives the source's stem and that extension. */
  lemma OutputNameSpec(p: Path, f: Format)
    requires WellFormed(p)
    ensures OutputName(p, f).Some? <==> Name(p) != ""
    ensures OutputName(p, f).Some? ==>
              OutputName(p, f).value == Stem(Name(p)) + Extension(f) &&
              Stem(OutputName(p, f).value) == Stem(Name(p)) &&
              Suffix(OutputName(p, f).value) == Extension(f) &&
              IsPart(OutputName(p, f).value)
  {
    if Name(p) != "" {
      ReplaceSuffixRoundTrip(Name(p), Extension(f));
      var n := Stem(Name(p)) + Extension(f);
      assert Sep !in Stem(Name(p)) by {
        assert IsPart(p.parts[|p.parts| - 1]);
        StemSuffixSplit(Name(p));
        assert forall j :: 0 <= j < |Stem(Name(p))| ==> Stem(Name(p))[j] == Name(p)[j];
      }
      assert Sep !in n;
    }
  }

  /** The output lands directly in the destination directory: parsed, it is
      the destination's path with the output name as one more component,
      whatever directories the source was in. */
  lemma OutputInDestination(dir: string, p: Path, f: Format)
    requires WellFormed(p) && Name(p) != ""
    ensures OutputPath(dir, p, f).Some?
    ensures Parse(OutputPath(dir, p, f).value) == Child(Parse(dir), Stem(Name(p)) + Extension(f))
  {
    OutputNameSpec(p, f);
    JoinIsChild(dir, OutputName(p, f).value);
  }

  lemma JoinCancel(dir: string, a: string, b: string)
    requires IsPart(a) && IsPart(b) && Join(dir, a) == Join(dir, b)
    ensures a == b
  {
    SinglePart(a);
    SinglePart(b);
    var pre := if dir == [] || dir[|dir| - 1] == Sep then dir else dir + [Sep];
    assert Join(dir, a) == pre + a && Join(dir, b) == pre + b;
    assert a == (pre + a)[|pre|..] && b == (pre + b)[|pre|..];
  }

  /** Two sources are written to the same output path exactly when their
      stems agree and the format is the same: the directory a source comes
      from and its old suffix play no part, so "a/x.png" and "b/x.gif"
      overwrite each other. */
  lemma OutputCollision(dir: string, p: Path, q: Path, f: Format, g: Format)
    requires WellFormed(p) && WellFormed(q) && Name(p) != "" && Name(q) != ""
    ensures OutputPath(dir, p, f) == OutputPath(dir, q, g) <==>
              Stem(Name(p)) == Stem(Name(q)) && f == g
  {
    OutputNameSpec(p, f);
    OutputNameSpec(q, g);
    if OutputPath(dir, p, f) == OutputPath(dir, q, g) {
      JoinCancel(dir, OutputName(p, f).value, OutputName(q, g).value);
      ExtensionInjective(f, g);
    }
  }

  lemma ExampleStem()
    ensures Stem("a.png") == "a"
  {
    assert LastIndexOf("a.png", '.') == 1 by {
      assert "a.png"[1] == '.';
    }
  }

  lemma ExampleName()
    ensures OutputName(Path("", ["photos", "a.png"]), JPEG) == Some("a.jpeg")
  {
    var p := Path("", ["photos", "a.png"]);
    assert Name(p) == "a.png";
    ExampleStem();
    ExtensionTable(JPEG);
    WithSuffixSpec(p, Extension(JPEG));
    assert "a" + ".jpeg" == "a.jpeg";
  }

  lemma ExampleJoin()
    ensures Join("/out", "a.jpeg") == "/out/a.jpeg"
  {
    assert "/out"[3] != Sep && "a.jpeg"[0] != Sep;
    assert "/out" + [Sep] + "a.jpeg" == "/out/a.jpeg";
  }

  /** `PurePath("photos/a.png")` is a relative path of two components. */
  lemma ExampleParse()
    ensures Parse("photos/a.png") == Path("", ["photos", "a.png"])
  {
    var dir: string, name: string := "photos", "a.png";
    assert Components(dir + [Sep] + name) == [dir, name] by {
      ComponentsJoin(dir, name);
      SinglePart(dir);
      SinglePart(name);
    }
    assert LeadingSeps(dir + [Sep] + name) == 0 by {
      assert (dir + [Sep] + name)[0] == 'p';
    }
    assert dir + [Sep] + name == "photos/a.png";
  }

  /** Converting "photos/a.png" to JPEG into "/out" writes "/out/a.jpeg". */
  lemma ExampleOutput()
    ensures OutputPath("/out", Parse("photos/a.png"), JPEG) == Some("/out/a.jpeg")
  {
    ExampleParse();
    ExampleName();
    ExampleJoin();
  }
}
