/** File classification against the configured format lists: the special-name test and the
    suffix allow-list used by the listing (print-queue-manager.py), and the substring-based
    part/laser classifier used when a file is opened (directory_movements.py). */
module Classifier {
  import opened Wrappers
  import opened Strings
  import opened Paths

  /** The two kinds of file the application associates programs with. */
  datatype FileKind = PartFile | LaserFile
  {
    /** The type tag written in the first column of the application list. */
    function Tag(): string
    {
      match this
      case PartFile => "part-file"
      case LaserFile => "laser-file"
    }
  }

  /** The parsed contents of the part and laser format files (comma-separated tokens). */
  datatype Formats = Formats(part: seq<string>, laser: seq<string>)

  /** `check_special_notations`: a name is special (hidden by default) when it starts with a
      dot or ends with a tilde. */
  function IsSpecial(name: string): (special: bool)
    ensures special <==> |name| > 0 && (name[0] == '.' || name[|name| - 1] == '~')
  {
    if StartsWith(name, ".") then true
    else if EndsWith(name, "~") then true
    else false
  }

  /** Some token of `tokens` is a suffix of `name`. */
  function EndsWithAny(name: string, tokens: seq<string>): (found: bool)
    ensures found <==> exists i :: 0 <= i < |tokens| && EndsWith(name, tokens[i])
    decreases |tokens|
  {
    if |tokens| == 0 then false
    else EndsWith(name, tokens[0]) || EndsWithAny(name, tokens[1..])
  }

  /** Some token of `tokens` occurs anywhere in `path`. */
  function ContainsAny(path: string, tokens: seq<string>): (found: bool)
    ensures found <==> exists i :: 0 <= i < |tokens| && Contains(path, tokens[i])
    decreases |tokens|
  {
    if |tokens| == 0 then false
    else Contains(path, tokens[0]) || ContainsAny(path, tokens[1..])
  }

  /** `ContainsAny` stated over membership rather than indices. */
  lemma ContainsAnyMember(path: string, tokens: seq<string>)
    ensures ContainsAny(path, tokens) <==> exists t :: t in tokens && Contains(path, t)
  {
    if exists t :: t in tokens && Contains(path, t) {
      var t :| t in tokens && Contains(path, t);
      var i :| 0 <= i < |tokens| && tokens[i] == t;
    }
  }

  /** `format_whitelisted`. Despite its name the result is the flag `no_whitelisted_format`:
      true exactly when NO part token and NO laser token is a suffix of the name. */
  function FormatWhitelisted(item: string, f: Formats): (noWhitelistedFormat: bool)
    ensures noWhitelistedFormat <==> forall t :: t in f.part + f.laser ==> !EndsWith(item, t)
  {
    var partMatch := EndsWithAny(item, f.part);
    var laserMatch := EndsWithAny(item, f.laser);
    assert forall t :: t in f.part + f.laser <==> t in f.part || t in f.laser;
    !(partMatch || laserMatch)
  }

  /** `file_sort_type`: part tokens are tried first, then laser tokens, each by substring
      containment anywhere in the whole path; `None` when nothing matches. */
  function FileSortType(path: string, f: Formats): (kind: Option<FileKind>)
    ensures kind == Some(PartFile) <==> exists t :: t in f.part && Contains(path, t)
    ensures kind == Some(LaserFile) <==>
      (forall t :: t in f.part ==> !Contains(path, t)) && exists t :: t in f.laser && Contains(path, t)
    ensures kind == None <==> forall t :: t in f.part + f.laser ==> !Contains(path, t)
  {
    assert forall t :: t in f.part + f.laser <==> t in f.part || t in f.laser;
    ContainsAnyMember(path, f.part);
    ContainsAnyMember(path, f.laser);
    if ContainsAny(path, f.part) then Some(PartFile)
    else if ContainsAny(path, f.laser) then Some(LaserFile)
    else None
  }

  /** An empty token (an empty or misconfigured part format file) classifies every path as a
      part file, because the empty string is contained in every string. */
  lemma EmptyPartTokenMatchesEverything(path: string, f: Formats)
    requires "" in f.part
    ensures FileSortType(path, f) == Some(PartFile)
  {
    assert OccursAt(path, "", 0);
  }

  /** An empty token makes every name pass the allow-list, because every string ends with "". */
  lemma EmptyTokenWhitelistsEverything(item: string, f: Formats)
    requires "" in f.part + f.laser
    ensures !FormatWhitelisted(item, f)
  {
    assert EndsWith(item, "");
  }

  /** Matching looks at the whole path: a part token in the parent directory alone classifies
      any relative name under it as a part file. */
  lemma ParentDirectoryTokenClassifies(dir: string, name: string, token: string, f: Formats)
    requires token in f.part && Contains(dir, token)
    requires !StartsWith(name, [Sep])
    ensures FileSortType(PathJoin(dir, name), f) == Some(PartFile)
  {
    var p := PathJoin(dir, name);
    assert p == dir + p[|dir|..];
    ContainsInPrefix(dir, p[|dir|..], token);
  }

  /** A name the allow-list accepts (`FormatWhitelisted` false) always receives a type from
      `FileSortType` once joined under its directory: a suffix is in particular a substring. */
  lemma WhitelistedIsClassified(dir: string, name: string, f: Formats)
    requires !FormatWhitelisted(name, f)
    ensures FileSortType(PathJoin(dir, name), f).Some?
  {
    var t :| t in f.part + f.laser && EndsWith(name, t);
    var p := PathJoin(dir, name);
    EndsWithTransitive(p, name, t);
    EndsWithContains(p, t);
    assert t in f.part || t in f.laser;
  }

  /** The type need not agree with the suffix that passed the allow-list: a laser suffix with a
      part token earlier in the name is classified as a part file. */
  lemma LaserSuffixCanClassifyAsPart()
    ensures !FormatWhitelisted("bracket.stl.svg", Formats([".stl"], [".svg"]))
    ensures FileSortType("bracket.stl.svg", Formats([".stl"], [".svg"])) == Some(PartFile)
  {
    var name := "bracket.stl.svg";
    assert EndsWith(name, ".svg");
    assert [".svg"][0] == ".svg";
    assert OccursAt(name, ".stl", 7);
    assert [".stl"][0] == ".stl";
  }
}
