# Image converter: batch conversion bookkeeping

This is a Dafny model of the core of a PyQt5 desktop image converter
(`converter.py`). The user fills an image list with files, using the open
dialog or by dropping URLs onto it. They pick a destination directory and a
target format ("JPEG", "WEBP", "PNG", "GIF", "BMP", "TIFF", "ICO"), then press
Execute. The model covers the parts of that flow that are not widgets:

- **Paths** (`paths.dfy`): the POSIX path behaviour the program relies on.
  - `PurePath(s)` parsing, where exactly two leading slashes stay as the
    root "//".
  - `name`, `suffix`, `stem` and `with_suffix`.
  - `os.path.join`.
- **Naming** (`naming.dfy`): how `execute` names each output file. The
  suffix is `"." + label.lower()`. The source path gets that suffix through
  `with_suffix`, and its final component is joined onto the destination
  directory.
- **Catalog** (`catalog.dfy`): the image list's `files` catalog.
  - `add_file` appends the parsed path.
  - `clear` empties the list.
  - `remove` calls `list.remove` for each selected item in turn. That drops
    the first equal entry, and raises `ValueError` when there is none.
  - `dropEvent` and `open_files` are batches of `add_file`.
  - Every entry of the list is a path as `PurePath` parses it (the type
    `Entry`), and the list always holds the files added less the files
    removed.
- **Converter** (`converter.dfy`): the `execute` loop.
  - Files are taken in list order, with one open/save attempt each.
    Exceptions from opening or saving are swallowed.
  - After the file at position `i` of `n`, the progress bar is set to
    `i * 100 / n`. It goes back to 0 at the end.
  - `with_suffix` is called before the `try`. A file whose name is empty
    (the path "/", or "" / ".") makes it raise, and that ends the run at
    that file without the reset.

Opening and saving an image (Pillow) is foreign code. It appears as an
oracle of type `Oracle`, `(seq<Attempt>, Path, string) -> bool`. Given the
attempts the run has already made, a source and an output path, it says
whether both calls went through. The earlier attempts stand for the files
those saves wrote, so a save may depend on what the run wrote before it.
The open and directory dialogs appear as the values they return.

A few facts about `converter.py` that the model keeps:

- JPEG gives the extension ".jpeg".
- `execute` writes no report, validates nothing and cannot be cancelled.
- `remove` removes by value: each selected file's first equal entry.
- Progress runs from 0 to 100.

## Model

| member | source | states |
|---|---|---|
| Paths.Parse | converter.py:11 | `PurePath(s)` gives a well-formed path: every component is non-empty, not "." and free of "/", and the root is "", "/" or "//"; the root is empty exactly when the string does not start with "/" |
| Paths.StemSuffixSplit | converter.py:12 | a name is its stem followed by its suffix; the suffix is empty or a dot, at least one character, and no further dot; a non-empty name has a non-empty stem |
| Paths.WithSuffix | converter.py:222 | `with_suffix` succeeds exactly when the suffix is valid and the path's name is non-empty (it raises ValueError otherwise) |
| Paths.WithSuffixSpec | converter.py:222 | `with_suffix` keeps the root and every component but the last; the new name is the old stem followed by the suffix |
| Paths.ReplaceSuffixRoundTrip | converter.py:222 | after replacing the suffix, reading `suffix` back gives the new suffix and reading `stem` back gives the old stem |
| Paths.ReplaceSuffixIdempotent | converter.py:222 | applying the same suffix twice equals applying it once |
| Paths.ComponentsJoin | converter.py:223 | the components of `a + "/" + b` are those of `a` followed by those of `b` |
| Paths.JoinIsChild | converter.py:223 | `os.path.join(dir, name)` for a single file name, parsed, is the parsed directory with `name` as one more final component, whether `dir` is empty, ends in "/" or not |
| Naming.Extension | converter.py:218 | the suffix `"." + label.lower()` is one `with_suffix` accepts: a dot, at least one character, no further dot, no separator |
| Naming.ExtensionTable | converter.py:218 | the seven entries of the "Convert to" box give ".jpeg", ".webp", ".png", ".gif", ".bmp", ".tiff" and ".ico" |
| Naming.ExtensionInjective | converter.py:218 | different formats never share an extension |
| Naming.OutputPathDefined | converter.py:222-223 | an output path exists exactly when the source's name is non-empty |
| Naming.OutputNameSpec | converter.py:222 | the output name exists exactly when the source has a name; it is the source's stem plus the extension, its own stem and suffix read back as those two, and it is a single path component |
| Naming.OutputInDestination | converter.py:222-223 | the output path, parsed, is the destination directory with the output name as its one extra component, whatever directory the source came from |
| Naming.OutputCollision | converter.py:222-223 | two sources get the same output path exactly when their stems agree and the format is the same; directory and old suffix play no part |
| Naming.ExampleOutput | converter.py:218-223 | `PurePath("photos/a.png")` converted to JPEG into "/out" is written to "/out/a.jpeg" |
| Catalog.RemoveFirst | converter.py:62 | `list.remove(x)` fails exactly when `x` is absent; otherwise the list loses one entry, its multiset loses exactly `x`, and the others keep their order (which equal entry goes is stated by `RemoveFirstIsFirst`) |
| Catalog.RemoveFirstIsFirst | converter.py:62 | the entry `list.remove(x)` takes out is the first one equal to `x`: no entry before it equals `x`, and the entries before and after it are kept as they were |
| Catalog.RemoveEachSpec | converter.py:59-62 | removing a selection keeps the remaining entries in order; it completes exactly when the selection, with repeats, is contained in the list, and then the list shrinks by the selection's size and loses exactly the selected entries |
| Catalog.RemoveEachFails | converter.py:61-62 | when `list.remove` raises for a selected file, the files removed before it stay removed and the rest of the list is untouched |
| Catalog.ImageList.constructor | converter.py:21 | a new image list holds no files |
| Catalog.ImageList.AddFile | converter.py:49-51 | `add_file` appends the parsed path at the end and changes nothing else; the catalog invariant (files = added less removed) is kept |
| Catalog.ImageList.Clear | converter.py:55-56 | `clear` leaves the list empty and keeps the catalog invariant |
| Catalog.ImageList.Remove | converter.py:59-62 | `remove` leaves exactly the list `RemoveEachSpec` describes and reports whether every selected file was found; the catalog invariant is kept |
| Catalog.ImageList.AddFiles | converter.py:202-203 | adding a batch of strings appends their parsed paths in order |
| Catalog.ImageList.Drop | converter.py:37-47 | a drop appends, in URL order, the local file path of each local URL and the URL text of any other |
| Converter.NamerStops | converter.py:222 | with the converter's naming, the first file without an output path is the first file with an empty name |
| Converter.AttemptsFromSpec | converter.py:221-229 | continuing a run after some attempts, the files before the first one without an output path are attempted in order, each to its output path; each recorded outcome is the oracle's value for that source and path given every attempt made before it |
| Converter.AttemptsSpec | converter.py:221-229 | the run attempts the files before the first one without an output path, each once and in list order, each written to its own output path; each recorded outcome is the oracle's value for that source and path given the attempts made earlier in the run |
| Converter.EveryFileAttempted | converter.py:221-227 | with the converter's naming, the attempts are exactly those before the first unnamed file (all files when every file has a name), each to its output path in the destination directory |
| Converter.FailuresDoNotStopTheRun | converter.py:225-229 | whatever the open/save outcomes, the same files are attempted in the same order with the same output paths |
| Converter.Progress | converter.py:230 | each value given to the progress bar inside the loop lies in [0, 100) |
| Converter.ProgressIncreasing | converter.py:230 | a later file's progress value is strictly greater than an earlier one's |
| Converter.ProgressTraceSpec | converter.py:219-230 | after `k` of `n` files the progress values shown are `j * 100 / n` for `j < k`: the first is 0, they rise strictly and stay below 100 |
| Converter.ImageConverter.constructor | converter.py:161-181 | the window starts with an empty image list, the home directory as destination, JPEG (the first entry) selected and the progress bar at 0 |
| Converter.ImageConverter.OpenFiles | converter.py:200-203 | each path chosen in the dialog is added in order |
| Converter.ImageConverter.RemoveFiles | converter.py:206-207 | delegates to the image list's `remove`, with the same result |
| Converter.ImageConverter.ClearFiles | converter.py:209-210 | the image list is emptied |
| Converter.ImageConverter.SetDestination | converter.py:212-214 | the directory returned by the dialog becomes the destination |
| Converter.ImageConverter.Run | converter.py:219-233 | the loop makes exactly the attempts `AttemptsSpec` describes and shows exactly the values `ProgressTraceSpec` describes; it completes and resets the bar to 0 exactly when every file has an output path, and otherwise stops at the first file without one, leaving the last value shown |
| Converter.ImageConverter.Execute | converter.py:216-233 | `execute` completes exactly when no file has an empty name; it makes the attempts and shows the progress values above, and leaves the bar at 0 on completion, at the last value shown otherwise |

## Left out

- Qt widgets, layout, the tree widget's columns (name and upper-cased
  suffix), its sorting and `resizeColumnToContents`: display only.
  `remove` takes the selected files as a sequence. Qt's selection order is
  an input.
- `dragEnterEvent` and `dragMoveEvent`: they only accept or ignore the
  event.
- A drop whose data has no URLs is ignored. The model takes the list of
  URLs, so that case is a drop of no URLs.
- The file and directory dialogs (`getOpenFileNames`,
  `getExistingDirectory`): their results are parameters.
- `Path.home()`: a parameter of the constructor.
- `Image.open`, `img.save`: an oracle parameter of the run. Image content
  and format detection are not modelled. The disk is not modelled either.
  The oracle sees the run's earlier attempts, which stand for the files
  those saves wrote. Files present before the run are part of the oracle.
- `print` logging in `execute` and the EXIF preview `open_preview`: output
  only.
- The scale, watermark, crop and quality widgets: `execute` never reads
  them.
- The menu bar, toolbar, status bar, `make_connections` and module-level
  start-up: wiring only.
- Converter.Progress: the value is the exact quotient `i * 100 / n` as a
  real number. Python's float rounding is not modelled. Neither is how
  `QProgressBar.setValue` turns the float into an int (recent PyQt5
  versions refuse a float).
- Windows path rules: paths are parsed as POSIX paths (`PurePath` on a
  POSIX system).
- Naming.Extension: `str.lower` is modelled for ASCII only. The seven
  labels are plain ASCII capitals.
- Catalog.ImageList.Remove: the tree widget's own item removal
  (`takeTopLevelItem`) is not modelled, only the `files` list.
