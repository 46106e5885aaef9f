/** The directory listing of `update_contents` (print-queue-manager.py): list the current
    directory, falling back to the default directory when it does not exist, and keep only the
    entries that should get a button. */
module Lister {
  import opened Wrappers
  import opened Seqs
  import opened Strings
  import opened Paths
  import opened Classifier
  import opened FileSystem

  /** The three `continue` statements of the listing loop, in source order: completed entries,
      then special names, then non-directories without a known format are skipped, and none of
      them is skipped while hidden items are shown. */
  function Shown(item: string, completed: set<string>, dirs: set<string>, showHidden: bool, f: Formats): (shown: bool)
    ensures showHidden ==> shown
    ensures !showHidden ==>
      (shown <==> item !in completed && !IsSpecial(item) &&
                  (item in dirs || exists t :: t in f.part + f.laser && EndsWith(item, t)))
  {
    if item in completed && !showHidden then false
    else if IsSpecial(item) && !showHidden then false
    else if item !in dirs && FormatWhitelisted(item, f) && !showHidden then false
    else true
  }

  /** The listing loop: the entries that get a button, in listing order. */
  function FilterEntries(entries: seq<string>, completed: set<string>, dirs: set<string>,
                         showHidden: bool, f: Formats): (shown: seq<string>)
    ensures IsSubsequence(shown, entries)
    ensures forall x :: x in shown <==> x in entries && Shown(x, completed, dirs, showHidden, f)
    ensures forall x :: multiset(shown)[x] ==
                         (if Shown(x, completed, dirs, showHidden, f) then multiset(entries)[x] else 0)
    decreases |entries|
  {
    if |entries| == 0 then []
    else
      var rest := FilterEntries(entries[1..], completed, dirs, showHidden, f);
      assert entries == [entries[0]] + entries[1..];
      assert multiset(entries) == multiset{entries[0]} + multiset(entries[1..]);
      SubsequenceSkip(rest, entries[1..], entries[0]);
      if Shown(entries[0], completed, dirs, showHidden, f) then
        assert ([entries[0]] + rest)[1..] == rest;
        [entries[0]] + rest
      else
        rest
  }

  /** With hidden items shown nothing is filtered out. */
  lemma {:induction false} ShowHiddenKeepsAll(entries: seq<string>, completed: set<string>, dirs: set<string>, f: Formats)
    ensures FilterEntries(entries, completed, dirs, true, f) == entries
    decreases |entries|
  {
    if |entries| > 0 {
      ShowHiddenKeepsAll(entries[1..], completed, dirs, f);
      assert [entries[0]] + entries[1..] == entries;
    }
  }

  /** Filtering with a second test that agrees with the first on every entry except that it also
      rejects `item` gives the first result without `item`, in the same order. */
  lemma {:induction false} FilterLosesItem(entries: seq<string>, c1: set<string>, d1: set<string>,
                                           c2: set<string>, d2: set<string>, f: Formats, item: string)
    requires forall x :: x in entries ==>
      (Shown(x, c2, d2, false, f) <==> Shown(x, c1, d1, false, f) && x != item)
    ensures FilterEntries(entries, c2, d2, false, f) == Without(FilterEntries(entries, c1, d1, false, f), item)
    decreases |entries|
  {
    if |entries| > 0 {
      assert entries[0] in entries;
      assert forall x :: x in entries[1..] ==> x in entries;
      FilterLosesItem(entries[1..], c1, d1, c2, d2, f, item);
      var rest1 := FilterEntries(entries[1..], c1, d1, false, f);
      if Shown(entries[0], c1, d1, false, f) {
        assert ([entries[0]] + rest1)[0] == entries[0];
        assert ([entries[0]] + rest1)[1..] == rest1;
      }
    }
  }

  /** An entry appended to the listing that the filter rejects changes nothing. */
  lemma {:induction false} FilterSkipsHiddenLast(entries: seq<string>, n: string, completed: set<string>,
                                                 dirs: set<string>, f: Formats)
    requires !Shown(n, completed, dirs, false, f)
    ensures FilterEntries(entries + [n], completed, dirs, false, f) == FilterEntries(entries, completed, dirs, false, f)
    decreases |entries|
  {
    if |entries| == 0 {
      assert ([] + [n])[1..] == [];
    } else {
      assert (entries + [n])[0] == entries[0];
      assert (entries + [n])[1..] == entries[1..] + [n];
      FilterSkipsHiddenLast(entries[1..], n, completed, dirs, f);
    }
  }

  /** The entries of `dir` whose name has a copy in `dir/.complete`. */
  function CompletedNames(fs: FS, dir: string, entries: seq<string>): (names: set<string>)
    ensures forall n :: n in names <==> n in entries && OpenedFileStatus(fs, dir, n)
  {
    set n | n in entries && OpenedFileStatus(fs, dir, n)
  }

  /** The entries of `dir` that are directories themselves (`os.path.isdir(os.path.join(dir, n))`). */
  function DirectoryNames(fs: FS, dir: string, entries: seq<string>): (names: set<string>)
    ensures forall n :: n in names <==> n in entries && IsDir(fs, PathJoin(dir, n))
  {
    set n | n in entries && IsDir(fs, PathJoin(dir, n))
  }

  /** What `update_contents` displays: the directory it listed and the names given a button. */
  datatype Listing = Listing(dir: string, shown: seq<string>)

  /** The listing of one existing directory. */
  function ListingOf(fs: FS, dir: string, showHidden: bool, f: Formats): (l: Listing)
    requires dir in fs
    ensures l.dir == dir
    ensures IsSubsequence(l.shown, fs[dir])
    ensures showHidden ==> l.shown == fs[dir]
    ensures !showHidden ==> forall x :: x in l.shown <==>
      x in fs[dir] && !OpenedFileStatus(fs, dir, x) && !IsSpecial(x) &&
      (IsDir(fs, PathJoin(dir, x)) || exists t :: t in f.part + f.laser && EndsWith(x, t))
  {
    var entries := fs[dir];
    var completed := CompletedNames(fs, dir, entries);
    var dirs := DirectoryNames(fs, dir, entries);
    ShowHiddenKeepsAll(entries, completed, dirs, f);
    Listing(dir, FilterEntries(entries, completed, dirs, showHidden, f))
  }

  /** `update_contents`: lists the current directory, or the fallback directory when listing the
      current one raises `FileNotFoundError`; `NotADirectoryError`, and a failure to list the
      fallback, propagate. */
  function UpdateContents(fs: FS, current: string, fallback: string, showHidden: bool, f: Formats): (r: Result<Listing, FsError>)
    ensures IsDir(fs, current) ==> r == Ok(ListingOf(fs, current, showHidden, f))
    ensures !IsDir(fs, current) && BlockedByFile(fs, current) ==> r == Err(NotADirectory(current))
    ensures !IsDir(fs, current) && !BlockedByFile(fs, current) && IsDir(fs, fallback) ==>
      r == Ok(ListingOf(fs, fallback, showHidden, f))
    ensures r.Err? <==> !IsDir(fs, current) && (BlockedByFile(fs, current) || !IsDir(fs, fallback))
    ensures r.Ok? ==> (r.value.dir == current || r.value.dir == fallback) && IsDir(fs, r.value.dir)
  {
    match ListDir(fs, current)
    case Ok(_) => Ok(ListingOf(fs, current, showHidden, f))
    case Err(NotFound(_)) =>
      (match ListDir(fs, fallback)
       case Ok(_) => Ok(ListingOf(fs, fallback, showHidden, f))
       case Err(e) => Err(e))
    case Err(e) => Err(e)
  }
}
