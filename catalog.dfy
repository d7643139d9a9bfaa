/** The file catalog: the list of parsed paths an image list holds, in the
    order they were added, and the three ways it changes (append one, clear,
    remove the selected files one after another). */
module Catalog {
  import opened Paths

  /** What the image list holds: a path as `PurePath` parses it. */
  type Entry = p: Path | WellFormed(p) witness Path("", [])

  /** `r` is `s` with some entries left out, the rest in their order. */
  predicate Subsequence(r: seq<Entry>, s: seq<Entry>)
    decreases |s|
  {
    r == [] || (s != [] && ((r[0] == s[0] && Subsequence(r[1..], s[1..])) || Subsequence(r, s[1..])))
  }

  lemma {:induction false} SubsequenceReflexive(s: seq<Entry>)
    ensures Subsequence(s, s)
    decreases |s|
  {
    if s != [] {
      SubsequenceReflexive(s[1..]);
    }
  }

  lemma {:induction false} SubsequenceTransitive(a: seq<Entry>, b: seq<Entry>, c: seq<Entry>)
    requires Subsequence(a, b) && Subsequence(b, c)
    ensures Subsequence(a, c)
    decreases |c|
  {
    if a != [] {
      if Subsequence(b, c[1..]) {
        SubsequenceTransitive(a, b, c[1..]);
      } else if Subsequence(a, b[1..]) {
        SubsequenceTransitive(a, b[1..], c[1..]);
      } else {
        SubsequenceTransitive(a[1..], b[1..], c[1..]);
      }
    }
  }

  /** Leaving out the entry at position `i` keeps the others in order. */
  lemma {:induction false} DropOneIsSubsequence(s: seq<Entry>, i: nat)
    requires i < |s|
    ensures Subsequence(s[..i] + s[i + 1..], s)
    decreases i
  {
    if i == 0 {
      assert s[..0] + s[1..] == s[1..];
      SubsequenceReflexive(s[1..]);
    } else {
      var r := s[..i] + s[i + 1..];
      assert r[0] == s[0];
      assert r[1..] == s[1..][..i - 1] + s[1..][i..];
      DropOneIsSubsequence(s[1..], i - 1);
    }
  }

  /** Position of the first entry equal to `x`. */
  function FirstIndex(s: seq<Entry>, x: Entry): (i: nat)
    requires x in s
    ensures i < |s| && s[i] == x
    ensures forall j :: 0 <= j < i ==> s[j] != x
  {
    if s[0] == x then 0 else 1 + FirstIndex(s[1..], x)
  }

  /** `list.remove(x)`: the first entry equal to `x` taken out; None where
      Python raises ValueError because no entry equals `x`. */
  function RemoveFirst(s: seq<Entry>, x: Entry): (r: Option<seq<Entry>>)
    ensures r.Some? <==> x in s
    ensures r.Some? ==> |r.value| == |s| - 1
                        && multiset(r.value) == multiset(s) - multiset{x}
                        && Subsequence(r.value, s)
  {
    if x in s then
      var i := FirstIndex(s, x);
      assert s == s[..i] + [s[i]] + s[i + 1..];
      DropOneIsSubsequence(s, i);
      Some(s[..i] + s[i + 1..])
    else None
  }

  /** The entry `list.remove(x)` takes out is the first one equal to `x`:
      every entry before it differs from `x`, and the entries on either side
      of it stay as they were. */
  lemma RemoveFirstIsFirst(s: seq<Entry>, x: Entry)
    requires x in s
    ensures exists i :: 0 <= i < |s| && s[i] == x && x !in s[..i] &&
                        RemoveFirst(s, x) == Some(s[..i] + s[i + 1..])
  {
    var i := FirstIndex(s, x);
    assert x !in s[..i];
  }

  /** The state of the list after `remove()` has worked through a
      selection: `complete` is false when an entry was missing, in which case
      Python raises there and `files` is the list as it stood. */
  datatype Removal = Removal(files: seq<Entry>, complete: bool)

  function RemoveEach(s: seq<Entry>, selected: seq<Entry>): Removal
    decreases |selected|
  {
    if selected == [] then Removal(s, true)
    else match RemoveFirst(s, selected[0])
      case None => Removal(s, false)
      case Some(t) => RemoveEach(t, selected[1..])
  }

  /** Removing a selection always keeps the remaining entries in their
      order. It goes through exactly when every selected file is in the list
      (counting repeats); then the list shrinks by the size of the selection
      and loses exactly the selected entries. */
  lemma {:induction false} RemoveEachSpec(s: seq<Entry>, selected: seq<Entry>)
    ensures Subsequence(RemoveEach(s, selected).files, s)
    ensures RemoveEach(s, selected).complete <==> multiset(selected) <= multiset(s)
    ensures RemoveEach(s, selected).complete ==>
              |RemoveEach(s, selected).files| == |s| - |selected| &&
              multiset(RemoveEach(s, selected).files) == multiset(s) - multiset(selected)
    decreases |selected|
  {
    if selected == [] {
      SubsequenceReflexive(s);
    } else {
      var x := selected[0];
      assert selected == [x] + selected[1..];
      assert multiset(selected) == multiset{x} + multiset(selected[1..]);
      match RemoveFirst(s, x)
      case None =>
        SubsequenceReflexive(s);
        assert x !in multiset(s);
      case Some(t) =>
        RemoveEachSpec(t, selected[1..]);
        SubsequenceTransitive(RemoveEach(t, selected[1..]).files, t, s);
        TakeOne(multiset(s), x, multiset(selected[1..]));
    }
  }

  /** When `list.remove` raises for the `k`-th selected file, the files
      removed before it stay removed and nothing else changes: the list is
      what removing the first `k` selected files leaves. */
  lemma {:induction false} RemoveEachFails(s: seq<Entry>, selected: seq<Entry>, k: nat)
    requires k < |selected|
    requires RemoveEach(s, selected[..k]).complete
    requires selected[k] !in RemoveEach(s, selected[..k]).files
    ensures RemoveEach(s, selected) == Removal(RemoveEach(s, selected[..k]).files, false)
    decreases k
  {
    var x := selected[0];
    if k == 0 {
      assert selected[..0] == [];
    } else {
      assert selected[..k][0] == x && selected[..k][1..] == selected[1..][..k - 1];
      var t := RemoveFirst(s, x).value;
      assert selected[1..][k - 1] == selected[k];
      RemoveEachFails(t, selected[1..], k - 1);
    }
  }

  /** Taking `x` and then `rest` out of `m` is taking both at once. */
  lemma TakeOne<T>(m: multiset<T>, x: T, rest: multiset<T>)
    requires x in m
    ensures multiset{x} + rest <= m <==> rest <= m - multiset{x}
    ensures m - multiset{x} - rest == m - (multiset{x} + rest)
  {
  }

  /** The catalog invariant: the entries are exactly those added less
      those taken out. */
  ghost predicate Tracks(files: seq<Entry>, added: multiset<Entry>, dropped: multiset<Entry>) {
    dropped <= added && multiset(files) == added - dropped
  }

  /** One `list.remove` inside `remove()` keeps the catalog invariant, with
      the removed entry counted as taken out, and leaves the rest of the
      selection to work through. */
  lemma RemoveStep(files: seq<Entry>, added: multiset<Entry>, dropped: multiset<Entry>, selected: seq<Entry>, k: nat)
    requires k < |selected| && RemoveFirst(files, selected[k]).Some?
    requires Tracks(files, added, dropped)
    ensures var rest := RemoveFirst(files, selected[k]).value;
            Tracks(rest, added, dropped + multiset{selected[k]}) &&
            RemoveEach(files, selected[k..]) == RemoveEach(rest, selected[k + 1..])
  {
    var x := selected[k];
    assert selected[k..][0] == x && selected[k..][1..] == selected[k + 1..];
    assert x in multiset(files);
  }

  /** The text `dropEvent` hands to `add_file` for one dropped URL: the
      local file path for a local URL, the whole URL text otherwise. */
  datatype Url = Url(isLocalFile: bool, localFile: string, text: string)

  function DropText(u: Url): string {
    if u.isLocalFile then u.localFile else u.text
  }

  /** The parsed paths of a batch of added strings, in order. */
  function ParseAll(texts: seq<string>): (r: seq<Entry>)
    ensures |r| == |texts|
    ensures forall i :: 0 <= i < |texts| ==> r[i] == Parse(texts[i])
  {
    if texts == [] then [] else [Parse(texts[0])] + ParseAll(texts[1..])
  }

  function DropTexts(urls: seq<Url>): (r: seq<string>)
    ensures |r| == |urls|
    ensures forall i :: 0 <= i < |urls| ==> r[i] == DropText(urls[i])
  {
    if urls == [] then [] else [DropText(urls[0])] + DropTexts(urls[1..])
  }

  /** The image list's file catalog. `added` and `dropped` are ghost
      histories: every entry ever appended, and every entry ever taken out. */
  class ImageList {
    var files: seq<Entry>
    ghost var added: multiset<Entry>
    ghost var dropped: multiset<Entry>

    /** Every entry in the list was added and has not been taken out
        since. */
    ghost predicate Valid()
      reads this
    {
      Tracks(files, added, dropped)
    }

    constructor ()
      ensures Valid() && files == [] && added == multiset{}
    {
      files := [];
      added, dropped := multiset{}, multiset{};
    }

    /** `add_file`: the parsed path goes at the end, nothing else moves. */
    method AddFile(path: string)
      requires Valid()
      modifies this
      ensures Valid() && dropped == old(dropped)
      ensures files == old(files) + [Parse(path)]
      ensures added == old(added) + multiset{Parse(path)}
    {
      files := files + [Parse(path)];
      added := added + multiset{Parse(path)};
    }

    /** `clear`: the list is empty whatever it held. */
    method Clear()
      requires Valid()
      modifies this
      ensures Valid() && added == old(added)
      ensures files == []
      ensures dropped == old(dropped) + multiset(old(files))
    {
      dropped := dropped + multiset(files);
      files := [];
    }

    /** `remove`: `list.remove` for the file of each selected item in turn.
        `ok` is false where a selected file is no longer in the list and
        Python raises ValueError; the removals before it stay done. */
    method Remove(selected: seq<Entry>) returns (ok: bool)
      requires Valid()
      modifies this
      ensures Valid() && added == old(added)
      ensures ok == RemoveEach(old(files), selected).complete
      ensures files == RemoveEach(old(files), selected).files
    {
      ghost var goal := RemoveEach(files, selected);
      var k := 0;
      while k < |selected|
        invariant 0 <= k <= |selected|
        invariant Tracks(files, added, dropped) && added == old(added)
        invariant RemoveEach(files, selected[k..]) == goal
      {
        var next := RemoveFirst(files, selected[k]);
        if next.None? {
          assert RemoveEach(files, selected[k..]) == Removal(files, false) by {
            assert selected[k..][0] == selected[k];
          }
          return false;
        }
        assert Tracks(next.value, added, dropped + multiset{selected[k]}) &&
               RemoveEach(next.value, selected[k + 1..]) == goal by {
          RemoveStep(files, added, dropped, selected, k);
        }
        dropped := dropped + multiset{selected[k]};
        files := next.value;
        k := k + 1;
      }
      assert selected[k..] == [];
      ok := true;
    }

    /** A batch of `add_file` calls, one per string, in order. */
    method AddFiles(paths: seq<string>)
      requires Valid()
      modifies this
      ensures Valid() && dropped == old(dropped)
      ensures files == old(files) + ParseAll(paths)
    {
      var k := 0;
      while k < |paths|
        invariant 0 <= k <= |paths|
        invariant Valid() && dropped == old(dropped)
        invariant |files| == |old(files)| + k && files[..|old(files)|] == old(files)
        invariant forall j :: 0 <= j < k ==> files[|old(files)| + j] == Parse(paths[j])
      {
        AddFile(paths[k]);
        k := k + 1;
      }
      var want := old(files) + ParseAll(paths);
      assert forall j :: 0 <= j < |files| ==> files[j] == want[j];
    }

    /** `dropEvent`: the text of each dropped URL is added with `add_file`,
        in the order the URLs come. */
    method Drop(urls: seq<Url>)
      requires Valid()
      modifies this
      ensures Valid() && dropped == old(dropped)
      ensures files == old(files) + ParseAll(DropTexts(urls))
    {
      AddFiles(DropTexts(urls));
    }
  }
}
