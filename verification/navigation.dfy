/** The browsing session of print-queue-manager.py: the current path, the path history kept by
    the Back and Forward buttons, and the hidden-items toggle. */
module Navigation {
  import opened Paths

  /** The module-level state of the window. */
  datatype Session = Session(current: string, history: seq<string>, showHidden: bool)

  /** The history's last entry is the current path (or the history is empty). Back and Forward
      both leave the session in this state; Home and opening a directory do not. */
  predicate InSync(s: Session)
  {
    |s.history| == 0 || s.history[|s.history| - 1] == s.current
  }

  /** The state at start-up: the home path, an empty history, hidden items not shown. */
  function Start(home: string): (s: Session)
    ensures InSync(s) && !s.showHidden && s.current == home
    ensures s.history == []
  {
    Session(home, [], false)
  }

  /** `go_back`: moves to the parent directory and records it at the end of the history. The
      parent is a prefix of the old path, and the old history is kept in front. */
  function GoBack(s: Session): (r: Session)
    ensures InSync(r)
    ensures r.current == Dirname(s.current)
    ensures |r.history| == |s.history| + 1 && r.history[..|s.history|] == s.history
    ensures r.current <= s.current
    ensures r.showHidden == s.showHidden
  {
    var parent := Dirname(s.current);
    DirnameShape(s.current);
    assert (s.history + [parent])[..|s.history|] == s.history;
    s.(current := parent, history := s.history + [parent])
  }

  /** `go_forward`: with more than one entry, moves to the second-to-last one; with exactly one,
      moves to it; either way drops the last entry. With an empty history nothing happens.
      Afterwards the session is in sync. */
  function GoForward(s: Session): (r: Session)
    ensures InSync(r)
    ensures |s.history| > 0 ==> r.history == s.history[..|s.history| - 1] && r.current in s.history
    ensures |s.history| == 0 ==> r == s
    ensures r.showHidden == s.showHidden
  {
    var h := s.history;
    if |h| > 1 then s.(current := h[|h| - 2], history := h[..|h| - 1])
    else if |h| == 1 then s.(current := h[0], history := [])
    else s
  }

  /** `go_home`, and `open_path` on a directory: the given path becomes the current path and the
      history is not touched, so Back and Forward still refer to the paths visited before. */
  function GoTo(s: Session, path: string): (r: Session)
    ensures r.current == path && r.history == s.history && r.showHidden == s.showHidden
  {
    s.(current := path)
  }

  /** `list_hidden_files`: flips the hidden-items flag. */
  function ToggleHidden(s: Session): (r: Session)
    ensures r.showHidden != s.showHidden
    ensures r.current == s.current && r.history == s.history
  {
    s.(showHidden := !s.showHidden)
  }

  /** Forward undoes Back from a session in sync with a non-empty history. */
  lemma ForwardUndoesBack(s: Session)
    requires InSync(s) && |s.history| > 0
    ensures GoForward(GoBack(s)) == s
  {
    var b := GoBack(s);
    assert b.history[|b.history| - 2] == s.history[|s.history| - 1];
    assert b.history[..|b.history| - 1] == s.history;
  }

  /** Forward after Back always restores the history, but from an empty history it stays in the
      parent directory instead of returning. */
  lemma ForwardAfterBackRestoresHistory(s: Session)
    ensures GoForward(GoBack(s)).history == s.history
    ensures s.history == [] ==> GoForward(GoBack(s)).current == Dirname(s.current)
  {
    var b := GoBack(s);
    assert b.history[..|b.history| - 1] == s.history;
  }

  /** Each Forward drops exactly one history entry, so `n` presses on a history of length at
      least `n` leave its first `|history| - n` entries. */
  function ForwardTimes(s: Session, n: nat): Session
    decreases n
  {
    if n == 0 then s else ForwardTimes(GoForward(s), n - 1)
  }

  lemma {:induction false} ForwardTimesDrops(s: Session, n: nat)
    requires n <= |s.history|
    ensures ForwardTimes(s, n).history == s.history[..|s.history| - n]
    decreases n
  {
    if n > 0 {
      var f := GoForward(s);
      ForwardTimesDrops(f, n - 1);
      assert f.history[..|f.history| - (n - 1)] == s.history[..|s.history| - n];
    }
  }
}
