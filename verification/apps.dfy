/** The application chooser of print-queue-manager.py: which lines of the application list are
    offered for a file kind, and how each offered line is cut into an application name and the
    executable to start. */
module Apps {
  import opened Wrappers
  import opened Seqs
  import opened Strings
  import opened Classifier

  /** One button of the "Choose Application" window: its label and the program it starts. */
  datatype AppChoice = AppChoice(name: string, executable: string)

  /** A selected line with fewer than three comma-separated fields: `application_options` indexes
      past the end of the split and fails. */
  datatype AppError = MissingField(line: string)

  /** The lines offered for `tag`: every line that contains the tag anywhere, in file order. */
  function SelectLines(tag: string, lines: seq<string>): (selected: seq<string>)
    ensures IsSubsequence(selected, lines)
    ensures forall l :: l in selected <==> l in lines && Contains(l, tag)
    decreases |lines|
  {
    if |lines| == 0 then []
    else
      var rest := SelectLines(tag, lines[1..]);
      assert lines == [lines[0]] + lines[1..];
      SubsequenceSkip(rest, lines[1..], lines[0]);
      if Contains(lines[0], tag) then
        assert ([lines[0]] + rest)[1..] == rest;
        [lines[0]] + rest
      else
        rest
  }

  /** Every line that contains the tag is kept as often as it occurs, and no other line is. */
  lemma {:induction false} SelectLinesKeepsRepeats(tag: string, lines: seq<string>)
    ensures forall l :: multiset(SelectLines(tag, lines))[l] ==
                        (if Contains(l, tag) then multiset(lines)[l] else 0)
    decreases |lines|
  {
    if |lines| > 0 {
      SelectLinesKeepsRepeats(tag, lines[1..]);
      assert lines == [lines[0]] + lines[1..];
      assert multiset(lines) == multiset{lines[0]} + multiset(lines[1..]);
    }
  }

  /** Fields 1 and 2 of a comma-separated line; the first field (the file kind) and any fields
      after the third are ignored. */
  function ParseChoice(line: string): (r: Result<AppChoice, AppError>)
    ensures r.Ok? <==> Count(line, ',') >= 2
    ensures r.Err? ==> r.error == MissingField(line)
    ensures r.Ok? ==> ',' !in r.value.name && ',' !in r.value.executable
  {
    var fields := Split(line, ',');
    if |fields| < 3 then Err(MissingField(line))
    else Ok(AppChoice(fields[1], fields[2]))
  }

  /** A line written in the documented form `<kind>,<name>,<executable>` (plus any further
      fields) gives back the name and executable it was written with. */
  lemma ParseChoiceOfFields(fields: seq<string>)
    requires |fields| >= 3
    requires forall i :: 0 <= i < |fields| ==> ',' !in fields[i]
    ensures ParseChoice(Join(fields, ',')) == Ok(AppChoice(fields[1], fields[2]))
  {
    SplitOfJoin(fields, ',');
  }

  /** Parses the selected lines in order and stops at the first one that lacks a field. */
  function ParseAll(lines: seq<string>): (r: Result<seq<AppChoice>, AppError>)
    ensures r.Ok? <==> forall i :: 0 <= i < |lines| ==> ParseChoice(lines[i]).Ok?
    ensures r.Ok? ==>
      |r.value| == |lines| && forall i :: 0 <= i < |lines| ==> ParseChoice(lines[i]) == Ok(r.value[i])
    ensures r.Err? ==> exists i :: 0 <= i < |lines| && ParseChoice(lines[i]) == Err(r.error) &&
                                   forall j :: 0 <= j < i ==> ParseChoice(lines[j]).Ok?
    decreases |lines|
  {
    if |lines| == 0 then Ok([])
    else
      match ParseChoice(lines[0])
      case Err(e) =>
        Err(e)
      case Ok(c) =>
        var rest := ParseAll(lines[1..]);
        assert forall i :: 1 <= i < |lines| ==> lines[i] == lines[1..][i - 1];
        match rest
        case Err(e) =>
          var k :| 0 <= k < |lines[1..]| && ParseChoice(lines[1..][k]) == Err(e) &&
            forall j :: 0 <= j < k ==> ParseChoice(lines[1..][j]).Ok?;
          assert ParseChoice(lines[k + 1]) == Err(e);
          Err(e)
        case Ok(cs) =>
          Ok([c] + cs)
  }

  /** The same facts as `ParseAll`'s contract, stated over line membership. */
  lemma ParseAllMembers(lines: seq<string>)
    ensures ParseAll(lines).Err? <==> exists l :: l in lines && Count(l, ',') < 2
    ensures ParseAll(lines).Ok? ==>
      forall c :: c in ParseAll(lines).value ==> exists l :: l in lines && ParseChoice(l) == Ok(c)
  {
    var r := ParseAll(lines);
    if r.Ok? {
      forall c | c in r.value
        ensures exists l :: l in lines && ParseChoice(l) == Ok(c)
      {
        var i :| 0 <= i < |r.value| && r.value[i] == c;
        assert ParseChoice(lines[i]) == Ok(c);
      }
    } else {
      var i :| 0 <= i < |lines| && ParseChoice(lines[i]) == Err(r.error);
      assert lines[i] in lines;
    }
  }

  /** Removing newlines from each line of a newline split changes nothing: the cleaning
      `application_options` applies to every line is a no-op. */
  function CleanLines(lines: seq<string>): (cleaned: seq<string>)
    requires forall i :: 0 <= i < |lines| ==> '\n' !in lines[i]
    ensures cleaned == lines
  {
    seq(|lines|, i requires 0 <= i < |lines| => CleanNewline(lines[i]))
  }

  /** `application_options`: splits the application list into lines, keeps those that contain
      the kind's tag and parses them. The list is in error exactly when some offered line lacks a
      field; otherwise there is one choice per offered line, in the order of the lines. */
  function ApplicationOptions(kind: FileKind, text: string): (r: Result<seq<AppChoice>, AppError>)
    ensures r.Err? <==>
      exists l :: l in Split(text, '\n') && Contains(l, kind.Tag()) && Count(l, ',') < 2
    ensures r.Ok? ==> var offered := SelectLines(kind.Tag(), Split(text, '\n'));
      |r.value| == |offered| &&
      forall i :: 0 <= i < |offered| ==> ParseChoice(offered[i]) == Ok(r.value[i])
    ensures r.Ok? ==> forall c :: c in r.value ==>
      exists l :: l in Split(text, '\n') && Contains(l, kind.Tag()) && ParseChoice(l) == Ok(c)
  {
    var lines := Split(text, '\n');
    var selected := SelectLines(kind.Tag(), CleanLines(lines));
    assert selected == SelectLines(kind.Tag(), lines);
    ParseAllMembers(selected);
    ParseAll(selected)
  }

  /** A list of one line that contains the tag and parses offers exactly that line's choice. */
  lemma SingleLineList(kind: FileKind, line: string, c: AppChoice)
    requires '\n' !in line && Contains(line, kind.Tag()) && ParseChoice(line) == Ok(c)
    ensures ApplicationOptions(kind, line) == Ok([c])
  {
    SplitWithoutSeparator(line, '\n');
    var selected := SelectLines(kind.Tag(), CleanLines(Split(line, '\n')));
    assert selected == [line];
    assert ApplicationOptions(kind, line) == ParseAll(selected);
    var r := ParseAll([line]);
    assert [line][0] == line;
    assert r.Ok? && |r.value| == 1 && ParseChoice(line) == Ok(r.value[0]);
    assert r.value == [c];
  }

  /** A line of three comma-free fields parses to its second and third fields. */
  lemma ThreeFieldLine(listed: string, name: string, exe: string)
    requires ',' !in listed && ',' !in name && ',' !in exe
    ensures ParseChoice(listed + [','] + name + [','] + exe) == Ok(AppChoice(name, exe))
  {
    assert [listed, name, exe][1..] == [name, exe];
    assert [name, exe][1..] == [exe];
    assert Join([exe], ',') == exe;
    assert Join([name, exe], ',') == name + [','] + exe;
    assert Join([listed, name, exe], ',') == listed + [','] + (name + [','] + exe);
    assert listed + [','] + (name + [','] + exe) == listed + [','] + name + [','] + exe;
    ParseChoiceOfFields([listed, name, exe]);
  }

  /** A substring of the middle field is a substring of the line. */
  lemma MiddleFieldContains(listed: string, name: string, exe: string, t: string)
    requires Contains(name, t)
    ensures Contains(listed + [','] + name + [','] + exe, t)
  {
    ContainsInPrefix(name, [','] + exe, t);
    ContainsInSuffix(listed + [','], name + ([','] + exe), t);
    assert listed + [','] + (name + ([','] + exe)) == listed + [','] + name + [','] + exe;
  }

  /** The tag is matched anywhere in the line, not only in its first field: a one-line list whose
      application name mentions the kind's tag offers that application, whatever kind the line's
      first field names (say "laser-file,part-file-viewer,pfv" for part files). */
  lemma TagMatchedAnywhere(kind: FileKind, listed: string, name: string, exe: string)
    requires Contains(name, kind.Tag())
    requires ',' !in listed && ',' !in name && ',' !in exe
    requires '\n' !in listed && '\n' !in name && '\n' !in exe
    ensures ApplicationOptions(kind, listed + [','] + name + [','] + exe) == Ok([AppChoice(name, exe)])
  {
    ThreeFieldLine(listed, name, exe);
    MiddleFieldContains(listed, name, exe, kind.Tag());
    SingleLineList(kind, listed + [','] + name + [','] + exe, AppChoice(name, exe));
  }
}
