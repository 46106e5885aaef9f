/** The actions of the print-queue-manager.py window that tie the pieces together: opening a path
    from the listing or the address bar, and starting an application on a file. */
module Browser {
  import opened Wrappers
  import opened Seqs
  import opened Strings
  import opened Paths
  import opened Classifier
  import opened FileSystem
  import opened Lister
  import opened Navigation
  import opened Apps

  /** The configuration files, as read when an action needs them. */
  datatype Config = Config(formats: Formats, appList: string, fallback: string)

  /** What an action puts on screen: a refreshed listing, the application chooser for a file
      kind, or nothing new. */
  datatype View =
    | Listed(listing: Result<Listing, FsError>)
    | ChooseApp(kind: FileKind, apps: Result<seq<AppChoice>, AppError>)
    | NoChange

  /** `update_contents` for the session's current path. */
  function Refresh(fs: FS, s: Session, cfg: Config): Result<Listing, FsError>
  {
    UpdateContents(fs, s.current, cfg.fallback, s.showHidden, cfg.formats)
  }

  /** `open_path`: a directory becomes the current path and is listed, without a history entry;
      anything else, existing or not, is classified by its path, and a classified path opens the
      application chooser for its kind. */
  function OpenPath(fs: FS, s: Session, cfg: Config, path: string): (r: (Session, View))
    ensures IsDir(fs, path) ==> r.0.current == path && r.0.history == s.history &&
                                r.1 == Listed(Ok(ListingOf(fs, path, s.showHidden, cfg.formats)))
    ensures !IsDir(fs, path) ==> r.0 == s
    ensures !IsDir(fs, path) ==>
      (r.1.ChooseApp? <==> exists t :: t in cfg.formats.part + cfg.formats.laser && Contains(path, t))
    ensures !IsDir(fs, path) && r.1.ChooseApp? ==> FileSortType(path, cfg.formats) == Some(r.1.kind)
    ensures r.1.ChooseApp? ==> r.1.apps == ApplicationOptions(r.1.kind, cfg.appList)
  {
    if IsDir(fs, path) then
      var entered := GoTo(s, path);
      (entered, Listed(Refresh(fs, entered, cfg)))
    else
      match FileSortType(path, cfg.formats)
      case Some(kind) => (s, ChooseApp(kind, ApplicationOptions(kind, cfg.appList)))
      case None => (s, NoChange)
  }

  /** Back from a relative folder such as `Downloads` reaches the empty path, which cannot be
      listed, so the window shows the fallback directory instead. */
  lemma BackFromRelativeFolderFallsBack(fs: FS, s: Session, cfg: Config)
    requires Sep !in s.current && IsDir(fs, cfg.fallback)
    ensures GoBack(s).current == ""
    ensures Refresh(fs, GoBack(s), cfg) == Ok(ListingOf(fs, cfg.fallback, s.showHidden, cfg.formats))
  {
  }

  /** Every file the listing shows opens the application chooser when clicked: a shown file has
      a whitelisted suffix, and a whitelisted name makes the joined path classifiable. */
  lemma ShownFileOffersApps(fs: FS, s: Session, cfg: Config, x: string)
    requires s.current in fs && !s.showHidden
    requires x in ListingOf(fs, s.current, false, cfg.formats).shown
    requires !IsDir(fs, PathJoin(s.current, x))
    ensures OpenPath(fs, s, cfg, PathJoin(s.current, x)).1.ChooseApp?
  {
    WhitelistedIsClassified(s.current, x, cfg.formats);
  }

  /** The outcome of `run_application` once the program has been started. */
  datatype RunOutcome = RunOutcome(fs: FS, listing: Result<Listing, FsError>)

  /** `run_application` after the program is launched: marks the file complete, then refreshes
      the listing. A failed copy raises before the refresh, so the listing is then an error;
      either way every existing directory stays. */
  function RunApplication(fs: FS, s: Session, cfg: Config, path: string): (r: RunOutcome)
    ensures r.fs == CopyToComplete(fs, path).fs
    ensures r.listing.Ok? ==> CopyToComplete(fs, path).error == None && IsDir(r.fs, r.listing.value.dir)
    ensures fs.Keys <= r.fs.Keys
    ensures CopyToComplete(fs, path).error == None && IsDir(fs, s.current) ==>
      r.listing.Ok? && r.listing.value.dir == s.current
  {
    var copied := CopyToComplete(fs, path);
    match copied.error
    case Some(e) => RunOutcome(copied.fs, Err(e))
    case None => RunOutcome(copied.fs, Refresh(copied.fs, s, cfg))
  }

  /** One entry of the old listing under the filter tests before and after `item` is marked
      complete: it passes afterwards exactly when it passed before and is not `item`. */
  lemma ShownLosesOnly(fs: FS, fs2: FS, dir: string, item: string, f: Formats, x: string)
    requires IsCanonicalDir(dir) && dir in fs && dir in fs2
    requires forall n :: n in fs[dir] ==> Sep !in n
    requires fs2[dir] == fs[dir] || fs2[dir] == fs[dir] + [CompleteName]
    requires fs2.Keys == fs.Keys || fs2.Keys == fs.Keys + {StatusFolder(dir)}
    requires OpenedFileStatus(fs2, dir, item)
    requires forall n :: n != item ==> (OpenedFileStatus(fs2, dir, n) <==> OpenedFileStatus(fs, dir, n))
    requires x in fs[dir]
    ensures Shown(x, CompletedNames(fs2, dir, fs2[dir]), DirectoryNames(fs2, dir, fs2[dir]), false, f) <==>
            Shown(x, CompletedNames(fs, dir, fs[dir]), DirectoryNames(fs, dir, fs[dir]), false, f) && x != item
  {
    CompleteNameIsPlain();
    assert IsSpecial(CompleteName);
    assert x in fs2[dir];
    if x != item && x != CompleteName {
      EntryIsNotStatusFolder(dir, x);
    }
  }

  /** A listing after one entry is marked complete, where the directory may have gained the
      `.complete` folder, is the listing before without that entry, in the same order. */
  lemma ListingLosesOnly(fs: FS, fs2: FS, dir: string, item: string, f: Formats)
    requires IsCanonicalDir(dir) && dir in fs && dir in fs2
    requires forall n :: n in fs[dir] ==> Sep !in n
    requires fs2[dir] == fs[dir] || fs2[dir] == fs[dir] + [CompleteName]
    requires fs2.Keys == fs.Keys || fs2.Keys == fs.Keys + {StatusFolder(dir)}
    requires OpenedFileStatus(fs2, dir, item)
    requires forall n :: n != item ==> (OpenedFileStatus(fs2, dir, n) <==> OpenedFileStatus(fs, dir, n))
    ensures ListingOf(fs2, dir, false, f).shown == Without(ListingOf(fs, dir, false, f).shown, item)
    ensures forall x :: x in ListingOf(fs2, dir, false, f).shown <==>
      x in ListingOf(fs, dir, false, f).shown && x != item
  {
    var c1, d1 := CompletedNames(fs, dir, fs[dir]), DirectoryNames(fs, dir, fs[dir]);
    var c2, d2 := CompletedNames(fs2, dir, fs2[dir]), DirectoryNames(fs2, dir, fs2[dir]);
    forall x | x in fs[dir]
      ensures Shown(x, c2, d2, false, f) <==> Shown(x, c1, d1, false, f) && x != item
    {
      ShownLosesOnly(fs, fs2, dir, item, f, x);
    }
    if fs2[dir] != fs[dir] {
      CompleteNameIsPlain();
      assert IsSpecial(CompleteName);
      FilterSkipsHiddenLast(fs[dir], CompleteName, c2, d2, f);
    }
    FilterLosesItem(fs[dir], c1, d1, c2, d2, f, item);
  }

  /** What marking `dir/item` complete does to `dir`, in the terms `ListingLosesOnly` needs. */
  lemma CopyPreparesListing(fs: FS, dir: string, item: string)
    requires IsCanonicalDir(dir) && dir in fs
    requires Sep !in item && !IsFile(fs, StatusFolder(dir))
    requires CopyToComplete(fs, PathJoin(dir, item)).error == None
    ensures var fs2 := CopyToComplete(fs, PathJoin(dir, item)).fs;
      dir in fs2 &&
      (fs2[dir] == fs[dir] || fs2[dir] == fs[dir] + [CompleteName]) &&
      (fs2.Keys == fs.Keys || fs2.Keys == fs.Keys + {StatusFolder(dir)}) &&
      OpenedFileStatus(fs2, dir, item) &&
      forall n :: n != item ==> (OpenedFileStatus(fs2, dir, n) <==> OpenedFileStatus(fs, dir, n))
  {
    var path := PathJoin(dir, item);
    CompleteFolderOfEntry(dir, item);
    CopyToCompleteParentListing(fs, path);
    CopyThenStatus(fs, dir, item);
  }

  /** After a successful copy the refresh lists the current directory of the new filesystem. */
  lemma RefreshAfterCopy(fs: FS, s: Session, cfg: Config, path: string)
    requires IsDir(fs, s.current) && CopyToComplete(fs, path).error == None
    ensures RunApplication(fs, s, cfg, path).listing ==
      Ok(ListingOf(CopyToComplete(fs, path).fs, s.current, s.showHidden, cfg.formats))
  {
    var fs2 := CopyToComplete(fs, path).fs;
    assert IsDir(fs2, s.current);
  }

  /** Starting an application on an entry of the current directory hides exactly that entry: the
      refreshed listing is the previous one without it, in the same order. The new `.complete` folder is itself
      hidden, and no other entry changes status. */
  lemma OpenedFileDisappears(fs: FS, s: Session, cfg: Config, item: string)
    requires IsCanonicalDir(s.current) && s.current in fs && !s.showHidden
    requires forall n :: n in fs[s.current] ==> Sep !in n
    requires Sep !in item && !IsFile(fs, StatusFolder(s.current))
    requires CopyToComplete(fs, PathJoin(s.current, item)).error == None
    ensures RunApplication(fs, s, cfg, PathJoin(s.current, item)).listing.Ok?
    ensures RunApplication(fs, s, cfg, PathJoin(s.current, item)).listing.value.shown ==
      Without(ListingOf(fs, s.current, false, cfg.formats).shown, item)
    ensures forall x :: x in RunApplication(fs, s, cfg, PathJoin(s.current, item)).listing.value.shown <==>
      x in ListingOf(fs, s.current, false, cfg.formats).shown && x != item
  {
    var dir := s.current;
    var path := PathJoin(dir, item);
    var fs2 := CopyToComplete(fs, path).fs;
    CopyPreparesListing(fs, dir, item);
    ListingLosesOnly(fs, fs2, dir, item, cfg.formats);
    RefreshAfterCopy(fs, s, cfg, path);
  }
}
