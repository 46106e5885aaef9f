/** POSIX path manipulation as Python's `os.path` performs it on POSIX systems
    (`dirname`, `basename`, two-argument `join`), with `/` as the only separator. */
module Paths {
  import opened Strings

  const Sep: char := '/'

  /** Every character of `s` is a separator (true of the empty string). */
  predicate AllSeparators(s: string)
  {
    forall i :: 0 <= i < |s| ==> s[i] == Sep
  }

  /** A directory path as the listing code builds on it: non-empty and without a trailing
      separator. `dirname` returns such a path unless the result is empty or the root. */
  predicate IsCanonicalDir(d: string)
  {
    |d| > 0 && d[|d| - 1] != Sep
  }

  /** Python's `p.rfind("/")`: the index of the last separator, or -1. */
  function LastSep(p: string): (k: int)
    ensures -1 <= k < |p|
    ensures k >= 0 ==> p[k] == Sep
    ensures forall j :: k < j < |p| ==> p[j] != Sep
    decreases |p|
  {
    if |p| == 0 then -1
    else if p[|p| - 1] == Sep then |p| - 1
    else LastSep(p[..|p| - 1])
  }

  /** Python's `s.rstrip("/")`. */
  function RStripSep(s: string): (r: string)
    ensures r <= s
    ensures |r| == 0 || r[|r| - 1] != Sep
    ensures forall j :: |r| <= j < |s| ==> s[j] == Sep
    decreases |s|
  {
    if |s| == 0 || s[|s| - 1] != Sep then s
    else RStripSep(s[..|s| - 1])
  }

  /** `os.path.basename`: the longest separator-free suffix of `p`. */
  function Basename(p: string): (base: string)
    ensures Sep !in base
    ensures EndsWith(p, base)
    ensures |base| < |p| ==> p[|p| - |base| - 1] == Sep
    ensures Sep !in p ==> base == p
  {
    p[LastSep(p) + 1..]
  }

  /** `os.path.dirname`: `p` up to its last separator, with the trailing separators dropped
      unless nothing else is left (so the root stays `/`). */
  function Dirname(p: string): string
  {
    var head := p[..LastSep(p) + 1];
    if head != "" && !AllSeparators(head) then RStripSep(head) else head
  }

  /** What `dirname` returns: a prefix of the path, followed in the path by separators only and
      then the basename; empty exactly when the path has no separator; otherwise canonical, or
      the root made of separators only. */
  lemma DirnameShape(p: string)
    ensures Dirname(p) <= p
    ensures |Dirname(p)| + |Basename(p)| <= |p|
    ensures AllSeparators(p[|Dirname(p)|..|p| - |Basename(p)|])
    ensures Dirname(p) == "" <==> Sep !in p
    ensures Dirname(p) == "" || IsCanonicalDir(Dirname(p)) || AllSeparators(Dirname(p))
  {
    var head := p[..LastSep(p) + 1];
    if head != "" && !AllSeparators(head) {
      var r := RStripSep(head);
      var m :| 0 <= m < |head| && head[m] != Sep;
      assert |r| > m;
    }
  }

  /** Two-argument `os.path.join`: an absolute second part replaces the first; otherwise a
      separator is put between the parts unless the first is empty or already ends in one. */
  function PathJoin(a: string, b: string): (r: string)
    ensures EndsWith(r, b)
    ensures StartsWith(b, [Sep]) ==> r == b
    ensures !StartsWith(b, [Sep]) ==> StartsWith(r, a) && |r| >= |a| + |b|
    ensures !StartsWith(b, [Sep]) ==>
      |r| == |a| + |b| + (if a == "" || EndsWith(a, [Sep]) then 0 else 1)
    ensures !StartsWith(b, [Sep]) && a != "" ==> r[|r| - |b| - 1] == Sep
  {
    if StartsWith(b, [Sep]) then b
    else if a == "" || EndsWith(a, [Sep]) then a + b
    else a + [Sep] + b
  }

  /** Joining a canonical directory and a relative part puts exactly one separator between. */
  lemma JoinCanonical(d: string, n: string)
    requires IsCanonicalDir(d) && !StartsWith(n, [Sep])
    ensures PathJoin(d, n) == d + [Sep] + n
  {
  }

  /** A separator-free part is relative. */
  lemma NoSepNotAbsolute(n: string)
    requires Sep !in n
    ensures !StartsWith(n, [Sep])
  {
    if |n| > 0 {
      assert n[0] in n;
    }
  }

  /** `dirname` and `basename` take apart what `join` put together, for a canonical directory
      and a separator-free name. */
  lemma JoinSplitsBack(d: string, n: string)
    requires IsCanonicalDir(d) && Sep !in n
    ensures Dirname(PathJoin(d, n)) == d
    ensures Basename(PathJoin(d, n)) == n
  {
    var p := PathJoin(d, n);
    NoSepNotAbsolute(n);
    JoinCanonical(d, n);
    var k := LastSep(p);
    assert p[|d|] == Sep;
    assert forall j :: |d| < j < |p| ==> p[j] == n[j - |d| - 1];
    assert k == |d|;
    assert p[k + 1..] == n;
    var head := p[..k + 1];
    assert head == d + [Sep];
    assert head[|d| - 1] != Sep;
    assert RStripSep(head) == RStripSep(d) by {
      assert head[..|head| - 1] == d;
    }
  }

  /** The `.complete` folder (or any separator-free name) joined to a `dirname` result lies
      directly in that directory. */
  lemma DirnameOfJoinedName(p: string, n: string)
    requires Sep !in n && n != ""
    ensures Dirname(PathJoin(Dirname(p), n)) == Dirname(p)
  {
    var d := Dirname(p);
    DirnameShape(p);
    if d == "" {
      assert PathJoin(d, n) == n;
    } else if IsCanonicalDir(d) {
      JoinSplitsBack(d, n);
    } else {
      var q := PathJoin(d, n);
      NoSepNotAbsolute(n);
      assert d[|d| - 1..] == [Sep];
      assert q == d + n;
      var k := LastSep(q);
      assert q[|d| - 1] == Sep;
      assert forall j :: |d| <= j < |q| ==> q[j] == n[j - |d|];
      assert k == |d| - 1;
      assert q[..k + 1] == d;
    }
  }

  /** A separator-free suffix preceded by a separator (or by nothing) is the basename. */
  lemma BasenameOfNameSuffix(p: string, n: string)
    requires EndsWith(p, n) && Sep !in n
    requires |n| == |p| || p[|p| - |n| - 1] == Sep
    ensures Basename(p) == n
  {
    var k := LastSep(p);
    assert forall j :: |p| - |n| <= j < |p| ==> p[j] == n[j - (|p| - |n|)];
    assert k == |p| - |n| - 1;
  }
}
