/** The batch conversion run by `execute`: every file of the image list, in
    list order, is opened and saved under its output path, failures are
    swallowed, and the progress bar advances to i*100/n after the i-th file
    and goes back to 0 at the end. Opening and saving an image is foreign
    code; it appears here as an oracle saying whether the pair of calls went
    through for a given source and output path, given the attempts the run
    has already made. */
module Converter {
  import opened Paths
  import opened Naming
  import opened Catalog

  /** One open-and-save attempt: the source, the path written to, and
      whether `Image.open` and `img.save` both went through. */
  datatype Attempt = Attempt(source: Path, target: string, saved: bool)

  /** Position of the first entry with an empty name, or `|files|`. */
  function FirstUnnamed(files: seq<Path>): (k: nat)
    ensures k <= |files|
    ensures forall j :: 0 <= j < k ==> Name(files[j]) != ""
    ensures k < |files| ==> Name(files[k]) == ""
  {
    if files == [] || Name(files[0]) == "" then 0 else 1 + FirstUnnamed(files[1..])
  }

  /** The output path `execute` computes for a source: `with_suffix` with
      the chosen format's extension, joined onto the destination; None where
      `with_suffix` raises. */
  function Namer(dir: string, f: Format): Path -> Option<string> {
    p => OutputPath(dir, p, f)
  }

  /** Position of the first entry `target` gives no output path, or
      `|files|`. */
  function FirstMissing(files: seq<Path>, target: Path -> Option<string>): (k: nat)
    ensures k <= |files|
    ensures forall j :: 0 <= j < k ==> target(files[j]).Some?
    ensures k < |files| ==> target(files[k]).None?
  {
    if files == [] || target(files[0]).None? then 0 else 1 + FirstMissing(files[1..], target)
  }

  /** With the converter's own naming, the run's stopping point is the
      first entry with an empty name. */
  lemma {:induction false} NamerStops(files: seq<Path>, dir: string, f: Format)
    ensures FirstMissing(files, Namer(dir, f)) == FirstUnnamed(files)
    decreases |files|
  {
    if files != [] {
      OutputPathDefined(dir, files[0], f);
      NamerStops(files[1..], dir, f);
    }
  }

  /** Opening and saving, seen from the run: given the attempts made so far
      in this run (which stand for the files those saves wrote), a source
      and the path it is saved to, whether `Image.open` and `img.save` both
      went through. */
  type Oracle = (seq<Attempt>, Path, string) -> bool

  /** The attempts a run makes over `files` once the attempts `done` have
      been made, each source written to the path `target` gives it. Where
      `target` has no path (`with_suffix` raises before the `try`), the
      exception ends the run there. */
  function AttemptsFrom(done: seq<Attempt>, files: seq<Path>, target: Path -> Option<string>, converts: Oracle): seq<Attempt>
    decreases |files|
  {
    if files == [] then []
    else match target(files[0])
      case None => []
      case Some(t) =>
        var a := Attempt(files[0], t, converts(done, files[0], t));
        [a] + AttemptsFrom(done + [a], files[1..], target, converts)
  }

  /** The attempts a whole run makes over `files`. */
  function Attempts(files: seq<Path>, target: Path -> Option<string>, converts: Oracle): seq<Attempt>
  {
    AttemptsFrom([], files, target, converts)
  }

  /** Continuing a run after `done`: the entries before the first one
      without an output path are attempted in order, and each outcome is
      the oracle's verdict given every attempt made before it. */
  lemma {:induction false} AttemptsFromSpec(done: seq<Attempt>, files: seq<Path>, target: Path -> Option<string>, converts: Oracle)
    ensures |AttemptsFrom(done, files, target, converts)| == FirstMissing(files, target)
    ensures var r := AttemptsFrom(done, files, target, converts);
            forall i :: 0 <= i < |r| ==>
              r[i].source == files[i] &&
              target(files[i]) == Some(r[i].target) &&
              r[i].saved == converts(done + r[..i], files[i], r[i].target)
    decreases |files|
  {
    if files != [] && target(files[0]).Some? {
      var r := AttemptsFrom(done, files, target, converts);
      var a := r[0];
      var rest := AttemptsFrom(done + [a], files[1..], target, converts);
      assert r == [a] + rest;
      AttemptsFromSpec(done + [a], files[1..], target, converts);
      forall i | 1 <= i < |r|
        ensures r[i].source == files[i] && target(files[i]) == Some(r[i].target)
        ensures r[i].saved == converts(done + r[..i], files[i], r[i].target)
      {
        assert r[i] == rest[i - 1] && files[i] == files[1..][i - 1];
        assert done + r[..i] == (done + [a]) + rest[..i - 1] by {
          assert r[..i] == [a] + rest[..i - 1];
        }
      }
      assert done + r[..0] == done;
    }
  }

  /** The run attempts the entries before the first one without an output
      path, each once and in list order, writing each to its output path;
      whether an attempt is saved is the oracle's verdict on that source and
      path, given the attempts made before it. */
  lemma AttemptsSpec(files: seq<Path>, target: Path -> Option<string>, converts: Oracle)
    ensures |Attempts(files, target, converts)| == FirstMissing(files, target)
    ensures var r := Attempts(files, target, converts);
            forall i :: 0 <= i < |r| ==>
              r[i].source == files[i] &&
              target(files[i]) == Some(r[i].target) &&
              r[i].saved == converts(r[..i], files[i], r[i].target)
  {
    var r := Attempts(files, target, converts);
    AttemptsFromSpec([], files, target, converts);
    forall i | 0 <= i < |r|
      ensures r[i].saved == converts(r[..i], files[i], r[i].target)
    {
      assert [] + r[..i] == r[..i];
    }
  }

  /** With the converter's naming: the entries before the first unnamed one
      are attempted, each once, in list order, each written to its output
      path in the destination directory. When every entry has a name, every
      entry is attempted. */
  lemma EveryFileAttempted(files: seq<Path>, dir: string, f: Format, converts: Oracle)
    ensures |Attempts(files, Namer(dir, f), converts)| == FirstUnnamed(files)
    ensures (forall i :: 0 <= i < |files| ==> Name(files[i]) != "") ==>
              |Attempts(files, Namer(dir, f), converts)| == |files|
    ensures forall i :: 0 <= i < |Attempts(files, Namer(dir, f), converts)| ==>
              Attempts(files, Namer(dir, f), converts)[i].source == files[i] &&
              OutputPath(dir, files[i], f) == Some(Attempts(files, Namer(dir, f), converts)[i].target)
  {
    AttemptsSpec(files, Namer(dir, f), converts);
    NamerStops(files, dir, f);
  }

  /** A failure never stops the run: under any two outcomes of opening and
      saving, the same files are attempted in the same order with the same
      output paths. */
  lemma FailuresDoNotStopTheRun(files: seq<Path>, target: Path -> Option<string>, c1: Oracle, c2: Oracle)
    ensures |Attempts(files, target, c1)| == |Attempts(files, target, c2)|
    ensures forall i :: 0 <= i < |Attempts(files, target, c1)| ==>
              Attempts(files, target, c1)[i].source == Attempts(files, target, c2)[i].source &&
              Attempts(files, target, c1)[i].target == Attempts(files, target, c2)[i].target
  {
    AttemptsSpec(files, target, c1);
    AttemptsSpec(files, target, c2);
  }

  /** Attempts over a list made of a prefix with output paths and the rest:
      the rest is attempted after the prefix's attempts. */
  lemma {:induction false} AttemptsAppend(done: seq<Attempt>, a: seq<Path>, b: seq<Path>, target: Path -> Option<string>, converts: Oracle)
    requires forall i :: 0 <= i < |a| ==> target(a[i]).Some?
    ensures var first := AttemptsFrom(done, a, target, converts);
            AttemptsFrom(done, a + b, target, converts) ==
              first + AttemptsFrom(done + first, b, target, converts)
    decreases |a|
  {
    if a == [] {
      assert a + b == b;
      assert done + [] == done;
    } else {
      var t := target(a[0]).value;
      var x := Attempt(a[0], t, converts(done, a[0], t));
      assert (a + b)[0] == a[0];
      assert (a + b)[1..] == a[1..] + b;
      AttemptsAppend(done + [x], a[1..], b, target, converts);
      var more := AttemptsFrom(done + [x], a[1..], target, converts);
      assert done + ([x] + more) == (done + [x]) + more;
    }
  }

  /** A run that has got past the first `i` entries stops at an entry
      without an output path, and no attempt is made from it on. */
  lemma AttemptsStop(files: seq<Path>, i: nat, target: Path -> Option<string>, converts: Oracle)
    requires i < |files| && i <= FirstMissing(files, target)
    requires target(files[i]).None?
    ensures FirstMissing(files, target) == i
    ensures Attempts(files, target, converts) == Attempts(files[..i], target, converts)
  {
    var first := Attempts(files[..i], target, converts);
    assert AttemptsFrom(first, files[i..], target, converts) == [] by {
      assert files[i..][0] == files[i];
    }
    AttemptsAppend([], files[..i], files[i..], target, converts);
    TakeDrop(files, i);
  }

  /** Past the first `i` entries, an entry with an output path adds exactly
      one attempt, written to that path, whose outcome the oracle gives
      from the attempts made before it. */
  lemma AttemptsNext(files: seq<Path>, i: nat, target: Path -> Option<string>, converts: Oracle)
    requires i < |files| && i <= FirstMissing(files, target)
    requires target(files[i]).Some?
    ensures i + 1 <= FirstMissing(files, target)
    ensures var t := target(files[i]).value;
            var before := Attempts(files[..i], target, converts);
            Attempts(files[..i + 1], target, converts) ==
              before + [Attempt(files[i], t, converts(before, files[i], t))]
  {
    var t := target(files[i]).value;
    var before := Attempts(files[..i], target, converts);
    var x := Attempt(files[i], t, converts(before, files[i], t));
    assert AttemptsFrom(before, [files[i]], target, converts) == [x] by {
      assert [files[i]][1..] == [];
    }
    assert Attempts(files[..i] + [files[i]], target, converts) == before + [x] by {
      AttemptsAppend([], files[..i], [files[i]], target, converts);
      assert [] + before == before;
    }
    TakeOneMore(files, i);
  }

  /** A prefix one longer is the prefix and the next element. */
  lemma TakeOneMore<T>(s: seq<T>, i: nat)
    requires i < |s|
    ensures s[..i + 1] == s[..i] + [s[i]]
  {
  }

  /** A sequence is its prefix followed by the rest. */
  lemma TakeDrop<T>(s: seq<T>, i: nat)
    requires i <= |s|
    ensures s[..i] + s[i..] == s
  {
  }

  /** The value the progress bar is given after the file at position `i`
      of `n`: `i * 100 / n`, computed exactly; it lies in [0, 100). */
  function Progress(i: nat, n: nat): (v: real)
    requires i < n
    ensures 0.0 <= v < 100.0
  {
    var v := ((i * 100) as real) / (n as real);
    ProgressScaled(i, n);
    ScalePositive(0.0, v, n as real);
    ScalePositive(v, 100.0, n as real);
    v
  }

  /** `i * 100 / n` times `n` is `i * 100`. */
  lemma ProgressScaled(i: nat, n: nat)
    requires i < n
    ensures ((i * 100) as real) / (n as real) * (n as real) == (i * 100) as real
  {
  }

  /** Multiplying by a positive number keeps the order. */
  lemma ScalePositive(x: real, y: real, m: real)
    requires m > 0.0
    ensures x * m < y * m <==> x < y
  {
    if x < y {
      assert (y - x) * m > 0.0;
    } else {
      assert (x - y) * m >= 0.0;
    }
  }

  /** The values given to the progress bar inside the loop, after the
      first `k` of `n` files. */
  function ProgressTrace(k: nat, n: nat): seq<real>
    requires k <= n
  {
    if k == 0 then [] else ProgressTrace(k - 1, n) + [Progress(k - 1, n)]
  }

  lemma ProgressIncreasing(i: nat, j: nat, n: nat)
    requires i < j < n
    ensures Progress(i, n) < Progress(j, n)
  {
    var x, y, m := Progress(i, n), Progress(j, n), n as real;
    ProgressScaled(i, n);
    ProgressScaled(j, n);
    assert (i * 100) as real < (j * 100) as real;
    ScalePositive(x, y, m);
  }

  /** The progress values of a run start at 0, rise strictly and stay
      below 100; the one after the file at position `j` is `j * 100 / n`. */
  lemma {:induction false} ProgressTraceSpec(k: nat, n: nat)
    requires k <= n
    ensures |ProgressTrace(k, n)| == k
    ensures k > 0 ==> ProgressTrace(k, n)[0] == 0.0
    ensures forall j :: 0 <= j < k ==>
              ProgressTrace(k, n)[j] == Progress(j, n) && 0.0 <= ProgressTrace(k, n)[j] < 100.0
    ensures forall i, j :: 0 <= i < j < k ==> ProgressTrace(k, n)[i] < ProgressTrace(k, n)[j]
  {
    if k > 0 {
      var t, u := ProgressTrace(k, n), ProgressTrace(k - 1, n);
      ProgressTraceSpec(k - 1, n);
      assert t == u + [Progress(k - 1, n)];
      assert forall j :: 0 <= j < k - 1 ==> t[j] == u[j];
      forall i | 0 <= i < k - 1
        ensures t[i] < t[k - 1]
      {
        ProgressIncreasing(i, k - 1, n);
      }
      assert k - 1 == 0 ==> t[0] == 0.0;
    }
  }

  /** The converter window's state that `execute` reads and writes. */
  class ImageConverter {
    var imageList: ImageList
    /** The destination directory; "" when the directory dialog was
        cancelled. */
    var destination: string
    /** The format selected in the "Convert to" box. */
    var format: Format
    /** The value the progress bar shows. */
    var progress: real

    /** The window as `initUI` sets it up: an empty image list, the home
        directory as destination, the first format (JPEG) selected, and the
        progress bar at 0. */
    constructor (home: string)
      ensures fresh(imageList) && imageList.Valid() && imageList.files == []
      ensures destination == home && format == JPEG && progress == 0.0
    {
      imageList := new ImageList();
      destination := home;
      format := JPEG;
      progress := 0.0;
    }

    /** `open_files`: each path chosen in the dialog is added, in order. */
    method OpenFiles(chosen: seq<string>)
      requires imageList.Valid()
      modifies imageList
      ensures imageList.Valid() && imageList.dropped == old(imageList.dropped)
      ensures imageList.files == old(imageList.files) + ParseAll(chosen)
    {
      imageList.AddFiles(chosen);
    }

    /** `remove_files`: the image list's `remove` on the selected files. */
    method RemoveFiles(selected: seq<Entry>) returns (ok: bool)
      requires imageList.Valid()
      modifies imageList
      ensures imageList.Valid() && imageList.added == old(imageList.added)
      ensures ok == RemoveEach(old(imageList.files), selected).complete
      ensures imageList.files == RemoveEach(old(imageList.files), selected).files
    {
      ok := imageList.Remove(selected);
    }

    /** `clear_files`: the image list's `clear`. */
    method ClearFiles()
      requires imageList.Valid()
      modifies imageList
      ensures imageList.Valid() && imageList.added == old(imageList.added)
      ensures imageList.files == []
    {
      imageList.Clear();
    }

    /** `get_destination`: the directory the dialog returns becomes the
        destination, "" when the dialog was cancelled. */
    method SetDestination(chosen: string)
      modifies this`destination
      ensures destination == chosen
    {
      destination := chosen;
    }

    /** The loop of `execute` over `files`, with `target` giving each
        source's output path. `completed` is false where `target` had no
        path for an entry: the exception ends the run there and the
        progress bar keeps its last value. `attempts` are the open/save
        attempts made and `shown` every value handed to the progress bar,
        in order. */
    method Run(files: seq<Path>, target: Path -> Option<string>, converts: Oracle)
      returns (completed: bool, attempts: seq<Attempt>, ghost shown: seq<real>)
      modifies this`progress
      ensures var k := FirstMissing(files, target);
              completed == (k == |files|) &&
              attempts == Attempts(files, target, converts) &&
              shown == ProgressTrace(k, |files|) + (if completed then [0.0] else []) &&
              progress == (if completed then 0.0 else if k == 0 then old(progress) else Progress(k - 1, |files|))
    {
      var n := |files|;
      attempts, shown := [], [];
      var i := 0;
      while i < n
        invariant 0 <= i <= FirstMissing(files, target)
        invariant attempts == Attempts(files[..i], target, converts)
        invariant shown == ProgressTrace(i, n)
        invariant progress == if i == 0 then old(progress) else Progress(i - 1, n)
      {
        var out := target(files[i]);
        if out.None? {
          AttemptsStop(files, i, target, converts);
          return false, attempts, shown;
        }
        AttemptsNext(files, i, target, converts);
        var saved := converts(attempts, files[i], out.value);
        attempts := attempts + [Attempt(files[i], out.value, saved)];
        progress := Progress(i, n);
        shown := shown + [progress];
        i := i + 1;
      }
      assert files[..n] == files;
      progress := 0.0;
      shown := shown + [0.0];
      completed := true;
    }

    /** `execute`: the loop over the image list's files, each written under
        the format's extension into the destination directory. The run
        completes exactly when no file has an empty name; otherwise it stops
        at the first such file. */
    method Execute(converts: Oracle)
      returns (completed: bool, attempts: seq<Attempt>, ghost shown: seq<real>)
      modifies this`progress
      ensures var files := imageList.files; var k := FirstUnnamed(files);
              completed == (k == |files|) &&
              attempts == Attempts(files, Namer(destination, format), converts) &&
              shown == ProgressTrace(k, |files|) + (if completed then [0.0] else []) &&
              progress == (if completed then 0.0 else if k == 0 then old(progress) else Progress(k - 1, |files|))
    {
      var files: seq<Path> := imageList.files;
      ghost var k := FirstUnnamed(files);
      assert FirstMissing(files, Namer(destination, format)) == k by {
        NamerStops(files, destination, format);
      }
      completed, attempts, shown := Run(files, Namer(destination, format), converts);
      assert shown == ProgressTrace(k, |files|) + (if completed then [0.0] else []);
    }
  }
}
