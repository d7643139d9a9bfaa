/** POSIX paths as Python's pathlib (PurePosixPath) and os.path.join treat
    them, restricted to what the converter uses: parsing a path string, the
    final component (`name`), its `suffix` and `stem`, `with_suffix`, and
    joining a file name onto a directory. */
module Paths {

  datatype Option<T> = None | Some(value: T)

  const Sep: char := '/'

  /** A parsed path: its root ("", "/" or "//") and its components, none of
      them empty, "." or containing a separator. Two paths are equal exactly
      when pathlib's `==` says so (POSIX comparison is case-sensitive). */
  datatype Path = Path(root: string, parts: seq<string>)

  /** A component pathlib keeps when it splits a path string. */
  predicate IsPart(s: string) {
    s != "" && s != "." && Sep !in s
  }

  predicate WellFormed(p: Path) {
    (p.root == "" || p.root == "/" || p.root == "//") &&
    forall i :: 0 <= i < |p.parts| ==> IsPart(p.parts[i])
  }

  /** `str.split("/")`: the pieces between separators, empty ones included;
      a string without separators is one piece. */
  function Split(s: string): (pieces: seq<string>)
    ensures |pieces| >= 1
  {
    if s == [] then [[]]
    else
      var rest := Split(s[1..]);
      if s[0] == Sep then [[]] + rest else [[s[0]] + rest[0]] + rest[1..]
  }

  /** The pieces pathlib keeps: empty ones (from leading, trailing or
      repeated separators) and "." are dropped. */
  function Keep(pieces: seq<string>): (parts: seq<string>)
    ensures forall i :: 0 <= i < |parts| ==> IsPart(parts[i])
  {
    if pieces == [] then []
    else (if IsPart(pieces[0]) then [pieces[0]] else []) + Keep(pieces[1..])
  }

  /** The components of a path string. */
  function Components(s: string): seq<string> {
    Keep(Split(s))
  }

  /** Number of separators `s` starts with. */
  function LeadingSeps(s: string): (n: nat)
    ensures n <= |s|
    ensures forall j :: 0 <= j < n ==> s[j] == Sep
    ensures n < |s| ==> s[n] != Sep
  {
    if s != [] && s[0] == Sep then 1 + LeadingSeps(s[1..]) else 0
  }

  /** `PurePosixPath(s)`. Exactly two leading separators are kept as the
      root "//"; one or three and more collapse to "/". */
  function Parse(s: string): (p: Path)
    ensures WellFormed(p)
    ensures p.root == "" <==> s == [] || s[0] != Sep
  {
    var n := LeadingSeps(s);
    Path(if n == 0 then "" else if n == 2 then "//" else "/", Components(s))
  }

  /** `PurePath.name`: the final component, "" for a bare root or "". */
  function Name(p: Path): string {
    if p.parts == [] then "" else p.parts[|p.parts| - 1]
  }

  /** `str.rfind`: index of the last occurrence of `c` in `s`, or -1. */
  function LastIndexOf(s: string, c: char): (i: int)
    ensures -1 <= i < |s|
    ensures 0 <= i ==> s[i] == c
    ensures forall j :: i < j < |s| ==> s[j] != c
  {
    if s == [] then -1
    else if s[|s| - 1] == c then |s| - 1
    else LastIndexOf(s[..|s| - 1], c)
  }

  /** `PurePath.stem`: the name without its suffix. */
  function Stem(name: string): string {
    var i := LastIndexOf(name, '.');
    if 0 < i < |name| - 1 then name[..i] else name
  }

  /** `PurePath.suffix`: the last dot of the name and what follows it, or ""
      when there is no dot, or the only one that counts is the first
      character (a hidden file) or the last. */
  function Suffix(name: string): string {
    var i := LastIndexOf(name, '.');
    if 0 < i < |name| - 1 then name[i..] else ""
  }

  /** A name is its stem followed by its suffix; the suffix is empty or a
      dot followed by at least one character and no further dot, and a
      non-empty name has a non-empty stem. */
  lemma StemSuffixSplit(name: string)
    ensures Stem(name) + Suffix(name) == name
    ensures Suffix(name) == "" || (|Suffix(name)| >= 2 && Suffix(name)[0] == '.' && '.' !in Suffix(name)[1..])
    ensures name != "" ==> Stem(name) != ""
  {
    var i := LastIndexOf(name, '.');
    if 0 < i < |name| - 1 {
      assert name[..i] + name[i..] == name;
      assert forall j :: 0 <= j < |name[i..]| - 1 ==> name[i..][1..][j] == name[i + 1 + j];
    }
  }

  /** A suffix `with_suffix` accepts: no separator, and either empty or a dot
      followed by something. */
  predicate ValidSuffix(suffix: string) {
    Sep !in suffix && (suffix == "" || (suffix[0] == '.' && suffix != "."))
  }

  /** The new final component `with_suffix` builds: the old suffix cut off
      (when there is one) and `suffix` appended. */
  function ReplaceSuffix(name: string, suffix: string): string {
    var ext := Suffix(name);
    if ext == "" then name + suffix else name[..|name| - |ext|] + suffix
  }

  /** `PurePath.with_suffix(suffix)`; None where pathlib raises ValueError
      (an invalid suffix, or a path whose name is empty). Only the final
      component changes. */
  function WithSuffix(p: Path, suffix: string): (r: Option<Path>)
    ensures r.Some? <==> ValidSuffix(suffix) && Name(p) != ""
  {
    if !ValidSuffix(suffix) || Name(p) == "" then None
    else Some(Path(p.root, p.parts[..|p.parts| - 1] + [ReplaceSuffix(Name(p), suffix)]))
  }

  /** `with_suffix` keeps the root and every component but the last, and
      the new last component is the old stem followed by the suffix. */
  lemma WithSuffixSpec(p: Path, suffix: string)
    requires ValidSuffix(suffix) && Name(p) != ""
    ensures WithSuffix(p, suffix).Some?
    ensures var q := WithSuffix(p, suffix).value;
            q.root == p.root && |q.parts| == |p.parts| &&
            q.parts[..|p.parts| - 1] == p.parts[..|p.parts| - 1] &&
            Name(q) == Stem(Name(p)) + suffix
  {
    StemSuffixSplit(Name(p));
    var name := Name(p);
    if Suffix(name) != "" {
      assert name[..|name| - |Suffix(name)|] == Stem(name);
    }
  }

  /** `os.path.join(dir, name)` on POSIX: an absolute second argument
      replaces the first; otherwise a separator is put between them unless
      `dir` is empty or already ends with one. */
  function Join(dir: string, name: string): string {
    if name != [] && name[0] == Sep then name
    else if dir == [] || dir[|dir| - 1] == Sep then dir + name
    else dir + [Sep] + name
  }

  /** The path one level below `p`. */
  function Child(p: Path, name: string): Path {
    Path(p.root, p.parts + [name])
  }

  lemma LastIndexOfAppend(a: string, b: string, c: char)
    requires c in b
    ensures LastIndexOf(a + b, c) == |a| + LastIndexOf(b, c)
  {
    var k := |a| + LastIndexOf(b, c);
    var r := LastIndexOf(a + b, c);
    assert (a + b)[k] == c;
    assert forall j :: |a| <= j < |a + b| ==> (a + b)[j] == b[j - |a|];
  }

  /** Replacing a suffix keeps the stem, and the result's suffix is the new
      one: `with_suffix` followed by `.suffix` / `.stem` gives back what went
      in. */
  lemma {:induction false} ReplaceSuffixRoundTrip(name: string, suffix: string)
    requires name != ""
    requires |suffix| >= 2 && suffix[0] == '.' && '.' !in suffix[1..]
    ensures ReplaceSuffix(name, suffix) == Stem(name) + suffix
    ensures Suffix(ReplaceSuffix(name, suffix)) == suffix
    ensures Stem(ReplaceSuffix(name, suffix)) == Stem(name)
  {
    var stem := Stem(name);
    var s := stem + suffix;
    StemSuffixSplit(name);
    assert name == stem + Suffix(name);
    assert ReplaceSuffix(name, suffix) == s by {
      if Suffix(name) != "" {
        assert name[..|name| - |Suffix(name)|] == stem;
      }
    }
    assert '.' in suffix;
    LastIndexOfAppend(stem, suffix, '.');
    assert LastIndexOf(suffix, '.') == 0 by {
      assert forall j :: 1 <= j < |suffix| ==> suffix[j] == suffix[1..][j - 1];
    }
    assert LastIndexOf(s, '.') == |stem|;
    assert s[..|stem|] == stem;
  }

  /** Giving a name the same suffix twice is the same as giving it once. */
  lemma ReplaceSuffixIdempotent(name: string, suffix: string)
    requires name != ""
    requires |suffix| >= 2 && suffix[0] == '.' && '.' !in suffix[1..]
    ensures ReplaceSuffix(ReplaceSuffix(name, suffix), suffix) == ReplaceSuffix(name, suffix)
  {
    ReplaceSuffixRoundTrip(name, suffix);
    ReplaceSuffixRoundTrip(ReplaceSuffix(name, suffix), suffix);
  }

  lemma {:induction false} SplitNoSep(s: string)
    requires Sep !in s
    ensures Split(s) == [s]
  {
    if s != [] {
      assert Sep !in s[1..] by {
        assert forall j :: 0 <= j < |s| - 1 ==> s[1..][j] == s[j + 1];
      }
      SplitNoSep(s[1..]);
      assert [s[0]] + s[1..] == s;
    }
  }

  /** Splitting `a + "/" + b` gives the pieces of `a` followed by those of
      `b`. */
  lemma {:induction false} SplitJoin(a: string, b: string)
    ensures Split(a + [Sep] + b) == Split(a) + Split(b)
    decreases |a|
  {
    if a == [] {
      assert a + [Sep] + b == [Sep] + b;
      assert ([Sep] + b)[1..] == b;
    } else {
      var s := a + [Sep] + b;
      assert s[0] == a[0] && s[1..] == a[1..] + [Sep] + b;
      SplitJoin(a[1..], b);
    }
  }

  lemma {:induction false} KeepAppend(x: seq<string>, y: seq<string>)
    ensures Keep(x + y) == Keep(x) + Keep(y)
    decreases |x|
  {
    if x == [] {
      assert x + y == y;
    } else {
      assert (x + y)[1..] == x[1..] + y;
      KeepAppend(x[1..], y);
    }
  }

  /** The components of `a + "/" + b` are those of `a` followed by those
      of `b`. */
  lemma ComponentsJoin(a: string, b: string)
    ensures Components(a + [Sep] + b) == Components(a) + Components(b)
  {
    SplitJoin(a, b);
    KeepAppend(Split(a), Split(b));
  }

  lemma {:induction false} LeadingSepsAppend(a: string, b: string)
    ensures LeadingSeps(a + b) == if LeadingSeps(a) < |a| then LeadingSeps(a) else |a| + LeadingSeps(b)
    decreases |a|
  {
    if a != [] {
      assert (a + b)[0] == a[0];
      if a[0] == Sep {
        assert (a + b)[1..] == a[1..] + b;
        LeadingSepsAppend(a[1..], b);
      }
    } else {
      assert a + b == b;
    }
  }

  /** A file name on its own is a single relative component. */
  lemma SinglePart(name: string)
    requires IsPart(name)
    ensures name[0] != Sep && Components(name) == [name]
  {
    assert name[0] in name;
    SplitNoSep(name);
    assert Keep([name]) == [name] + Keep([]) by {
      assert [name][1..] == [];
    }
  }

  /** The empty string has no components. */
  lemma NoParts()
    ensures Components([]) == []
  {
    var e: string := [];
    assert Split(e) == [e];
    assert Keep([e]) == Keep([]) by {
      assert [e][1..] == [];
    }
  }

  lemma JoinUnderSep(dir: string, name: string)
    requires IsPart(name) && dir != [] && dir[|dir| - 1] == Sep
    ensures Parse(dir + name) == Child(Parse(dir), name)
  {
    SinglePart(name);
    var d := dir[..|dir| - 1];
    assert Components(dir) == Components(d) by {
      assert dir == d + [Sep] + [];
      ComponentsJoin(d, []);
      NoParts();
    }
    assert Components(dir + name) == Components(d) + [name] by {
      assert dir + name == d + [Sep] + name;
      ComponentsJoin(d, name);
    }
    LeadingSepsAppend(dir, name);
  }

  lemma JoinWithSep(dir: string, name: string)
    requires IsPart(name) && dir != [] && dir[|dir| - 1] != Sep
    ensures Parse(dir + [Sep] + name) == Child(Parse(dir), name)
  {
    SinglePart(name);
    ComponentsJoin(dir, name);
    assert LeadingSeps(dir) < |dir|;
    LeadingSepsAppend(dir, [Sep] + name);
    assert dir + [Sep] + name == dir + ([Sep] + name);
  }

  /** Joining a file name onto a directory and parsing the result gives the
      directory's path one level down: the name becomes the final
      component, and root and parent come from the directory alone. */
  lemma JoinIsChild(dir: string, name: string)
    requires IsPart(name)
    ensures Parse(Join(dir, name)) == Child(Parse(dir), name)
  {
    SinglePart(name);
    if dir == [] {
      assert Join(dir, name) == name;
      NoParts();
    } else if dir[|dir| - 1] == Sep {
      JoinUnderSep(dir, name);
    } else {
      JoinWithSep(dir, name);
    }
  }
}
