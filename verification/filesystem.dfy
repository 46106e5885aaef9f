/** An abstract filesystem and the completion marker kept in it: `copy_to_complete`
    (directory_movements.py) copies a file into the `.complete` folder beside it, and
    `opened_file_status` (print-queue-manager.py) looks the name up in that folder. */
module FileSystem {
  import opened Wrappers
  import opened Strings
  import opened Paths

  /** Each directory path maps to the names of its entries in the order the operating system
      lists them. A path is a directory exactly when it is a key. */
  type FS = map<string, seq<string>>

  /** The hidden folder that holds copies of processed files. */
  const CompleteName: string := ".complete"

  /** `.complete` is a plain, hidden name: no separator, and it does not end in one. */
  lemma CompleteNameIsPlain()
    ensures Sep !in CompleteName && |CompleteName| == 9
    ensures CompleteName[0] == '.' && CompleteName[8] == 'e'
  {
    assert CompleteName == ['.', 'c', 'o', 'm', 'p', 'l', 'e', 't', 'e'];
  }

  /** The exceptions `os.listdir`, `os.mkdir` and `shutil.copy2` raise in the modelled paths. */
  datatype FsError =
    | NotFound(path: string)
    | NotADirectory(path: string)
    | IsADirectory(path: string)
    | FileExists(path: string)
    | SameFile(path: string)

  /** A regular file: not a directory, and listed in its parent directory. */
  predicate IsFile(fs: FS, p: string)
  {
    p !in fs && Dirname(p) in fs && Basename(p) in fs[Dirname(p)]
  }

  /** `os.path.isdir`. The empty key stands for the working directory that relative paths are
      resolved against, but the empty path itself names no directory. */
  predicate IsDir(fs: FS, p: string)
  {
    p != "" && p in fs
  }

  /** `os.path.exists`. */
  predicate PathExists(fs: FS, p: string)
  {
    IsDir(fs, p) || IsFile(fs, p)
  }

  /** Some directory on the way to `p` is a regular file, so `p` cannot be looked up. */
  predicate UnderFile(fs: FS, p: string)
    decreases |p|
  {
    var parent := Dirname(p);
    DirnameShape(p);
    parent != p && (IsFile(fs, parent) || UnderFile(fs, parent))
  }

  /** The paths `os.listdir` rejects with `NotADirectoryError`: a regular file, or a path that
      runs through one. */
  predicate BlockedByFile(fs: FS, p: string)
  {
    p != "" && (IsFile(fs, p) || UnderFile(fs, p))
  }

  /** `os.listdir`. Any other path that is not a directory, the empty path included, raises
      `FileNotFoundError`. */
  function ListDir(fs: FS, p: string): (r: Result<seq<string>, FsError>)
    ensures r.Ok? <==> IsDir(fs, p)
    ensures r.Ok? ==> r.value == fs[p]
    ensures r.Err? ==> (r.error == NotADirectory(p) <==> BlockedByFile(fs, p))
    ensures r.Err? ==> (r.error == NotFound(p) <==> !BlockedByFile(fs, p))
  {
    if IsDir(fs, p) then Ok(fs[p])
    else if BlockedByFile(fs, p) then Err(NotADirectory(p))
    else Err(NotFound(p))
  }

  /** The folder `opened_file_status` walks: the directory and `/.complete` concatenated. */
  function StatusFolder(dir: string): string
  {
    dir + [Sep] + CompleteName
  }

  /** The folder `copy_to_complete` writes to: `os.path.join(os.path.dirname(path), ".complete")`. */
  function CompleteFolder(path: string): (folder: string)
    ensures EndsWith(folder, CompleteName) && folder != ""
  {
    PathJoin(Dirname(path), CompleteName)
  }

  /** `opened_file_status`: the item is a file in the directory's `.complete` folder; `os.walk`
      reports the folder's files apart from its sub-directories. A missing folder means the item
      is not complete. */
  function OpenedFileStatus(fs: FS, dir: string, item: string): (complete: bool)
    ensures complete ==> StatusFolder(dir) in fs
    ensures complete <==>
      ListDir(fs, StatusFolder(dir)).Ok? && item in ListDir(fs, StatusFolder(dir)).value &&
      !IsDir(fs, PathJoin(StatusFolder(dir), item))
  {
    var folder := StatusFolder(dir);
    folder in fs && item in fs[folder] && !IsDir(fs, PathJoin(folder, item))
  }

  /** Adds a name to a directory listing unless it is already there (a copy over an existing
      file replaces it). */
  function AddEntry(names: seq<string>, n: string): (r: seq<string>)
    ensures n in r
    ensures forall m :: m in r <==> m in names || m == n
    ensures |names| <= |r| <= |names| + 1
  {
    if n in names then names else names + [n]
  }

  /** `os.mkdir`: fails on the empty path, if the path exists, or if its parent is not a
      directory; otherwise adds an empty directory and lists it in the parent. */
  function Mkdir(fs: FS, p: string): (r: Result<FS, FsError>)
    ensures r.Ok? <==> p != "" && !PathExists(fs, p) && Dirname(p) in fs
    ensures r.Ok? ==> r.value.Keys == fs.Keys + {p} && r.value[p] == []
    ensures r.Ok? ==> r.value[Dirname(p)] == fs[Dirname(p)] + [Basename(p)]
    ensures r.Ok? ==> forall d :: d in fs && d != Dirname(p) ==> r.value[d] == fs[d]
  {
    var parent := Dirname(p);
    if p == "" then Err(NotFound(p))
    else if PathExists(fs, p) then Err(FileExists(p))
    else if parent !in fs then
      (if IsFile(fs, parent) then Err(NotADirectory(parent)) else Err(NotFound(parent)))
    else Ok(fs[parent := fs[parent] + [Basename(p)]][p := []])
  }

  /** The filesystem after a copy and the exception it raised, if any. */
  datatype CopyOutcome = CopyOutcome(fs: FS, error: Option<FsError>)

  /** Where `shutil.copy2` writes: inside `dst` when it is a directory, `dst` itself otherwise. */
  function CopyTarget(fs: FS, src: string, dst: string): string
  {
    if dst in fs then PathJoin(dst, Basename(src)) else dst
  }

  /** `shutil.copy2(src, dst)` for an existing destination `dst`: into it when it is a
      directory, over it when it is a file. File contents and metadata are not modelled, so
      only directory listings change. It succeeds exactly when the source is a regular file
      that is not the target itself and the target is not a directory. */
  function Copy2(fs: FS, src: string, dst: string): (r: CopyOutcome)
    requires PathExists(fs, dst)
    ensures r.error == None <==>
      IsFile(fs, src) && src != CopyTarget(fs, src, dst) && CopyTarget(fs, src, dst) !in fs
    ensures r.fs.Keys == fs.Keys
    ensures forall d :: d in fs && d != dst ==> r.fs[d] == fs[d]
    ensures dst !in fs || r.error != None ==> r.fs == fs
    ensures dst in fs ==> forall n :: n in r.fs[dst] <==> n in fs[dst] || (r.error == None && n == Basename(src))
  {
    var target := CopyTarget(fs, src, dst);
    if IsFile(fs, src) && src == target then CopyOutcome(fs, Some(SameFile(src)))
    else if src in fs then CopyOutcome(fs, Some(IsADirectory(src)))
    else if !IsFile(fs, src) then CopyOutcome(fs, Some(NotFound(src)))
    else if target in fs then CopyOutcome(fs, Some(IsADirectory(target)))
    else if dst in fs then CopyOutcome(fs[dst := AddEntry(fs[dst], Basename(src))], None)
    else CopyOutcome(fs, None)
  }

  /** Where `copy_to_complete` puts the copy of `path` when the `.complete` folder is a directory. */
  function MarkerPath(path: string): string
  {
    PathJoin(CompleteFolder(path), Basename(path))
  }

  /** The copy lies one level inside the `.complete` folder, so it is neither that folder nor the
      file it copies. */
  lemma MarkerPathShape(path: string)
    ensures MarkerPath(path) == CompleteFolder(path) + [Sep] + Basename(path)
    ensures MarkerPath(path) != path
    ensures MarkerPath(path) != CompleteFolder(path)
    ensures IsCanonicalDir(CompleteFolder(path))
  {
    var d := Dirname(path);
    var folder := CompleteFolder(path);
    var b := Basename(path);
    CompleteNameIsPlain();
    NoSepNotAbsolute(CompleteName);
    assert |folder| >= |d| + |CompleteName|;
    assert folder[|folder| - 1] == 'e';
    NoSepNotAbsolute(b);
    JoinCanonical(folder, b);
    JoinSplitsBack(folder, b);
    assert Dirname(PathJoin(folder, b)) != d;
  }

  /** `copy_to_complete` when something named `.complete` already exists. */
  lemma CopyIntoExistingFolder(fs: FS, path: string)
    requires PathExists(fs, CompleteFolder(path))
    ensures Copy2(fs, path, CompleteFolder(path)).error == None <==>
      IsFile(fs, path) && path != CompleteFolder(path) &&
      (IsFile(fs, CompleteFolder(path)) || MarkerPath(path) !in fs)
  {
    MarkerPathShape(path);
  }

  /** Copying into a directory succeeds exactly when the source is a file other than the
      target and the target is not a directory. */
  lemma CopyIntoDirectory(fs: FS, src: string, dst: string)
    requires IsDir(fs, dst)
    ensures Copy2(fs, src, dst).error == None <==>
      IsFile(fs, src) && src != PathJoin(dst, Basename(src)) && PathJoin(dst, Basename(src)) !in fs
  {
  }

  /** A key other than the one added is present after the addition exactly when it was before. */
  lemma OtherKeysUnchanged(fs: FS, fs1: FS, added: string, other: string)
    requires fs1.Keys == fs.Keys + {added} && other != added
    ensures other in fs1 <==> other in fs
  {
  }

  /** `copy_to_complete` right after it created the `.complete` folder. */
  lemma CopyIntoNewFolder(fs: FS, fs1: FS, path: string)
    requires !PathExists(fs, CompleteFolder(path)) && Mkdir(fs, CompleteFolder(path)) == Ok(fs1)
    requires Basename(path) != CompleteName
    ensures Copy2(fs1, path, CompleteFolder(path)).error == None <==>
      IsFile(fs, path) && MarkerPath(path) !in fs
  {
    var folder := CompleteFolder(path);
    var marker := MarkerPath(path);
    assert marker != path && marker != folder by {
      MarkerPathShape(path);
    }
    MkdirKeepsSource(fs, fs1, path);
    assert fs1.Keys == fs.Keys + {folder};
    OtherKeysUnchanged(fs, fs1, folder, marker);
    assert folder in fs1;
    CopyIntoDirectory(fs1, path, folder);
    assert PathJoin(folder, Basename(path)) == marker;
  }

  /** `copy_to_complete`: creates the `.complete` folder beside the file when nothing of that
      name exists, then copies the file into it. The folder is created before the copy is
      attempted, so a failed copy can leave a new empty folder behind. The copy succeeds exactly
      when the path is a regular file and the place of its copy is not a directory. */
  function CopyToComplete(fs: FS, path: string): (r: CopyOutcome)
    ensures Basename(path) != CompleteName ==> (r.error == None <==>
      IsFile(fs, path) && (IsFile(fs, CompleteFolder(path)) || MarkerPath(path) !in fs))
    ensures r.error == None && !IsFile(fs, CompleteFolder(path)) ==>
      CompleteFolder(path) in r.fs && Basename(path) in r.fs[CompleteFolder(path)]
    ensures r.fs.Keys == fs.Keys || r.fs.Keys == fs.Keys + {CompleteFolder(path)}
    ensures PathExists(fs, CompleteFolder(path)) ==> r.fs.Keys == fs.Keys
    ensures CompleteFolder(path) !in r.fs ==> r.fs == fs
    ensures forall d :: d in fs && d != Dirname(path) && d != CompleteFolder(path) ==> r.fs[d] == fs[d]
    ensures CompleteFolder(path) in r.fs ==>
      forall n :: n in r.fs[CompleteFolder(path)] <==>
        (CompleteFolder(path) in fs && n in fs[CompleteFolder(path)]) || (r.error == None && n == Basename(path))
    ensures r.error == None && CompleteFolder(path) in r.fs ==> MarkerPath(path) !in r.fs
  {
    var folder := CompleteFolder(path);
    CompleteFolderPlacement(path);
    if PathExists(fs, folder) then
      CopyIntoExistingFolder(fs, path);
      Copy2(fs, path, folder)
    else
      match Mkdir(fs, folder)
      case Err(e) =>
        MkdirFailsOnlyWithoutSource(fs, path);
        CopyOutcome(fs, Some(e))
      case Ok(fs1) =>
        if Basename(path) != CompleteName then
          CopyIntoNewFolder(fs, fs1, path);
          Copy2(fs1, path, folder)
        else
          Copy2(fs1, path, folder)
  }

  /** The `.complete` folder can only fail to be created when the file's own directory is
      missing, in which case the file is missing too. */
  lemma MkdirFailsOnlyWithoutSource(fs: FS, path: string)
    requires !PathExists(fs, CompleteFolder(path)) && Mkdir(fs, CompleteFolder(path)).Err?
    ensures !IsFile(fs, path)
  {
    CompleteNameIsPlain();
    DirnameOfJoinedName(path, CompleteName);
  }

  /** Where `.complete` is created: directly in the file's own directory, under its own name. */
  lemma CompleteFolderPlacement(path: string)
    ensures Dirname(CompleteFolder(path)) == Dirname(path)
    ensures Basename(CompleteFolder(path)) == CompleteName
  {
    CompleteNameIsPlain();
    DirnameOfJoinedName(path, CompleteName);
    NoSepNotAbsolute(CompleteName);
    BasenameOfNameSuffix(CompleteFolder(path), CompleteName);
  }

  /** Adding a new directory `folder` to the directory `parent` keeps every file a file, and
      makes no other path a file unless it also carries the folder's name. */
  lemma AddFolderKeepsFiles(fs: FS, parent: string, folder: string, name: string, path: string)
    requires parent in fs && folder != "" && !PathExists(fs, folder) && Dirname(path) == parent
    ensures IsFile(fs, path) ==> IsFile(fs[parent := fs[parent] + [name]][folder := []], path)
    ensures Basename(path) != name ==>
      (IsFile(fs[parent := fs[parent] + [name]][folder := []], path) ==> IsFile(fs, path))
  {
  }

  /** Creating the `.complete` folder keeps the file being copied a file, and makes no other
      path a file unless that path is also named `.complete`. */
  lemma MkdirKeepsSource(fs: FS, fs1: FS, path: string)
    requires !PathExists(fs, CompleteFolder(path)) && Mkdir(fs, CompleteFolder(path)) == Ok(fs1)
    ensures IsFile(fs, path) ==> IsFile(fs1, path)
    ensures Basename(path) != CompleteName ==> (IsFile(fs1, path) <==> IsFile(fs, path))
  {
    var folder := CompleteFolder(path);
    var parent := Dirname(path);
    CompleteFolderPlacement(path);
    assert fs1 == fs[parent := fs[parent] + [CompleteName]][folder := []];
    AddFolderKeepsFiles(fs, parent, folder, CompleteName, path);
  }

  /** The `.complete` folder is never the file's own directory. */
  lemma CompleteFolderIsNotParent(path: string)
    ensures CompleteFolder(path) != Dirname(path)
  {
    CompleteNameIsPlain();
    NoSepNotAbsolute(CompleteName);
    assert |CompleteFolder(path)| >= |Dirname(path)| + |CompleteName|;
  }

  /** A second copy of the same file into the same directory changes nothing more. */
  lemma Copy2Idempotent(fs: FS, src: string, dst: string)
    requires IsDir(fs, dst) && Dirname(src) != dst
    ensures Copy2(Copy2(fs, src, dst).fs, src, dst) == Copy2(fs, src, dst)
  {
    var r := Copy2(fs, src, dst);
    if r.error == None {
      assert r.fs == fs[dst := AddEntry(fs[dst], Basename(src))];
      SecondCopySeesSameSource(fs, r.fs, src, dst);
    }
  }

  /** After a first copy into the directory `dst`, the source is still a file, the copy lands on
      the same target, and adding the copied name again leaves the listing as it is. */
  lemma SecondCopySeesSameSource(fs: FS, fs1: FS, src: string, dst: string)
    requires IsDir(fs, dst) && Dirname(src) != dst && IsFile(fs, src)
    requires fs1 == fs[dst := AddEntry(fs[dst], Basename(src))]
    ensures IsFile(fs1, src) && src !in fs1
    ensures CopyTarget(fs1, src, dst) == CopyTarget(fs, src, dst)
    ensures fs1[dst := AddEntry(fs1[dst], Basename(src))] == fs1
  {
    assert fs1.Keys == fs.Keys;
    assert fs1[Dirname(src)] == fs[Dirname(src)];
    assert Basename(src) in fs1[dst];
  }

  /** Once the `.complete` folder is a directory, `copy_to_complete` is a single `copy2` into it. */
  lemma CopyToCompleteWithFolder(fs: FS, path: string)
    requires CompleteFolder(path) in fs
    ensures CopyToComplete(fs, path) == Copy2(fs, path, CompleteFolder(path))
  {
  }

  /** Idempotence when the `.complete` folder already is a directory. */
  lemma IdempotentWithFolder(fs: FS, path: string)
    requires CompleteFolder(path) in fs
    ensures CopyToComplete(CopyToComplete(fs, path).fs, path) == CopyToComplete(fs, path)
  {
    var folder := CompleteFolder(path);
    CompleteFolderIsNotParent(path);
    CopyToCompleteWithFolder(fs, path);
    Copy2Idempotent(fs, path, folder);
    CopyToCompleteWithFolder(Copy2(fs, path, folder).fs, path);
  }

  /** Idempotence when the first call created the `.complete` folder. */
  lemma IdempotentNewFolder(fs: FS, fs1: FS, path: string)
    requires !PathExists(fs, CompleteFolder(path)) && Mkdir(fs, CompleteFolder(path)) == Ok(fs1)
    ensures CopyToComplete(CopyToComplete(fs, path).fs, path) == CopyToComplete(fs, path)
  {
    var folder := CompleteFolder(path);
    CompleteFolderIsNotParent(path);
    assert CopyToComplete(fs, path) == Copy2(fs1, path, folder);
    assert folder in fs1;
    Copy2Idempotent(fs1, path, folder);
    CopyToCompleteWithFolder(Copy2(fs1, path, folder).fs, path);
  }

  /** `copy_to_complete` is idempotent: a second call on the same path, whether the first
      succeeded or failed, leaves the filesystem as the first left it, creates no second folder
      and reports the same outcome. */
  lemma CopyToCompleteIdempotent(fs: FS, path: string)
    ensures CopyToComplete(CopyToComplete(fs, path).fs, path) == CopyToComplete(fs, path)
  {
    var folder := CompleteFolder(path);
    if folder in fs {
      IdempotentWithFolder(fs, path);
    } else if !PathExists(fs, folder) && Mkdir(fs, folder).Ok? {
      IdempotentNewFolder(fs, Mkdir(fs, folder).value, path);
    } else {
      assert CompleteFolder(path) !in CopyToComplete(fs, path).fs;
    }
  }

  /** The two spellings of the `.complete` folder agree on canonical directories: the folder
      `copy_to_complete` fills for `dir/item` is the one `opened_file_status` reads for `dir`. */
  lemma CompleteFolderOfEntry(dir: string, item: string)
    requires IsCanonicalDir(dir) && Sep !in item
    ensures Dirname(PathJoin(dir, item)) == dir
    ensures Basename(PathJoin(dir, item)) == item
    ensures CompleteFolder(PathJoin(dir, item)) == StatusFolder(dir)
  {
    JoinSplitsBack(dir, item);
    CompleteNameIsPlain();
    NoSepNotAbsolute(CompleteName);
    JoinCanonical(dir, CompleteName);
  }

  /** Marking a directory entry complete makes `opened_file_status` report it, and changes the
      status of no other entry of that directory. */
  lemma CopyThenStatus(fs: FS, dir: string, item: string)
    requires IsCanonicalDir(dir) && Sep !in item
    requires CopyToComplete(fs, PathJoin(dir, item)).error == None
    requires !IsFile(fs, StatusFolder(dir))
    ensures OpenedFileStatus(CopyToComplete(fs, PathJoin(dir, item)).fs, dir, item)
    ensures forall n :: n != item ==>
      (OpenedFileStatus(CopyToComplete(fs, PathJoin(dir, item)).fs, dir, n) <==> OpenedFileStatus(fs, dir, n))
  {
    CopyMarksItem(fs, dir, item);
    forall n | n != item
      ensures OpenedFileStatus(CopyToComplete(fs, PathJoin(dir, item)).fs, dir, n) <==> OpenedFileStatus(fs, dir, n)
    {
      CopyKeepsOtherStatus(fs, dir, item, n);
    }
  }

  /** The copied entry is a file in the status folder afterwards. */
  lemma CopyMarksItem(fs: FS, dir: string, item: string)
    requires IsCanonicalDir(dir) && Sep !in item
    requires CopyToComplete(fs, PathJoin(dir, item)).error == None
    requires !IsFile(fs, StatusFolder(dir))
    ensures OpenedFileStatus(CopyToComplete(fs, PathJoin(dir, item)).fs, dir, item)
  {
    var path := PathJoin(dir, item);
    var fs2 := CopyToComplete(fs, path).fs;
    CompleteFolderOfEntry(dir, item);
    assert StatusFolder(dir) in fs2 && item in fs2[StatusFolder(dir)];
    assert PathJoin(StatusFolder(dir), item) == MarkerPath(path);
    assert MarkerPath(path) !in fs2;
  }

  /** Any other name keeps its status: its membership in the status folder is unchanged, and so
      is whether it is a directory there. */
  lemma CopyKeepsOtherStatus(fs: FS, dir: string, item: string, n: string)
    requires IsCanonicalDir(dir) && Sep !in item && n != item
    requires CopyToComplete(fs, PathJoin(dir, item)).error == None
    ensures OpenedFileStatus(CopyToComplete(fs, PathJoin(dir, item)).fs, dir, n) <==> OpenedFileStatus(fs, dir, n)
  {
    var path := PathJoin(dir, item);
    var fs2 := CopyToComplete(fs, path).fs;
    var folder := StatusFolder(dir);
    CompleteFolderOfEntry(dir, item);
    if folder in fs {
      assert fs2.Keys == fs.Keys;
    }
  }

  /** With something already at the folder's place, the directory's listing is untouched. */
  lemma ParentListingWithFolder(fs: FS, path: string)
    requires PathExists(fs, CompleteFolder(path)) && Dirname(path) in fs
    ensures Dirname(path) in CopyToComplete(fs, path).fs
    ensures CopyToComplete(fs, path).fs[Dirname(path)] == fs[Dirname(path)]
  {
    CompleteFolderIsNotParent(path);
    assert CopyToComplete(fs, path) == Copy2(fs, path, CompleteFolder(path));
  }

  /** A newly created folder is the only addition to the directory's listing. */
  lemma ParentListingNewFolder(fs: FS, fs1: FS, path: string)
    requires !PathExists(fs, CompleteFolder(path)) && Mkdir(fs, CompleteFolder(path)) == Ok(fs1)
    ensures Dirname(path) in fs && Dirname(path) in CopyToComplete(fs, path).fs
    ensures CopyToComplete(fs, path).fs[Dirname(path)] == fs[Dirname(path)] + [CompleteName]
  {
    var folder := CompleteFolder(path);
    CompleteFolderPlacement(path);
    CompleteFolderIsNotParent(path);
    assert CopyToComplete(fs, path) == Copy2(fs1, path, folder);
    assert fs1[Dirname(path)] == fs[Dirname(path)] + [CompleteName];
  }

  /** Without anything at the folder's place, the folder is created and appended to the listing. */
  lemma ParentListingWithoutFolder(fs: FS, path: string)
    requires !PathExists(fs, CompleteFolder(path)) && Dirname(path) in fs
    ensures Dirname(path) in CopyToComplete(fs, path).fs
    ensures CopyToComplete(fs, path).fs[Dirname(path)] == fs[Dirname(path)] + [CompleteName]
  {
    var folder := CompleteFolder(path);
    CompleteFolderPlacement(path);
    assert Mkdir(fs, folder).Ok?;
    ParentListingNewFolder(fs, Mkdir(fs, folder).value, path);
  }

  /** Marking a file complete changes its directory's own listing at most by appending the new
      `.complete` folder. */
  lemma CopyToCompleteParentListing(fs: FS, path: string)
    requires Dirname(path) in fs
    ensures Dirname(path) in CopyToComplete(fs, path).fs
    ensures CopyToComplete(fs, path).fs[Dirname(path)] == fs[Dirname(path)] ||
            CopyToComplete(fs, path).fs[Dirname(path)] == fs[Dirname(path)] + [CompleteName]
  {
    if PathExists(fs, CompleteFolder(path)) {
      ParentListingWithFolder(fs, path);
    } else {
      ParentListingWithoutFolder(fs, path);
    }
  }

  /** A separator-free entry name other than `.complete` never names the status folder. */
  lemma EntryIsNotStatusFolder(dir: string, n: string)
    requires IsCanonicalDir(dir) && Sep !in n && n != CompleteName
    ensures PathJoin(dir, n) != StatusFolder(dir)
  {
    NoSepNotAbsolute(n);
    JoinCanonical(dir, n);
    assert (dir + [Sep] + n)[|dir| + 1..] == n;
    assert (dir + [Sep] + CompleteName)[|dir| + 1..] == CompleteName;
  }
}
