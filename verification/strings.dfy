/** The handful of Python `str` operations the print queue relies on, written out over `seq<char>`:
    `startswith`, `endswith`, the `in` operator, `split` on one separator character, `join`,
    `replace` of one character and the newline cleaning applied to every config read. */
module Strings {
  import opened Seqs

  /** Python's `s.startswith(p)`. */
  predicate StartsWith(s: string, p: string)
  {
    p <= s
  }

  /** Python's `s.endswith(p)`; the empty string is a suffix of every string. */
  predicate EndsWith(s: string, p: string)
  {
    |p| <= |s| && s[|s| - |p|..] == p
  }

  /** `t` occurs in `s` starting at index `i`. */
  predicate OccursAt(s: string, t: string, i: int)
  {
    0 <= i && i + |t| <= |s| && s[i..i + |t|] == t
  }

  /** Python's `t in s`: scans the start positions of `s` from left to right. */
  function Contains(s: string, t: string): (found: bool)
    ensures found <==> exists i :: OccursAt(s, t, i)
    decreases |s|
  {
    if t <= s then
      assert OccursAt(s, t, 0);
      true
    else if |s| == 0 then
      NothingOccursInEmpty(s, t);
      false
    else
      OccursShift(s, t);
      Contains(s[1..], t)
  }

  lemma NothingOccursInEmpty(s: string, t: string)
    requires |s| == 0 && !(t <= s)
    ensures !exists i :: OccursAt(s, t, i)
  {
  }

  /** When `t` is not a prefix of `s`, its occurrences in `s` are those in `s[1..]`, shifted by one. */
  lemma OccursShift(s: string, t: string)
    requires |s| > 0 && !(t <= s)
    ensures (exists i :: OccursAt(s, t, i)) <==> (exists i :: OccursAt(s[1..], t, i))
  {
    if exists i :: OccursAt(s, t, i) {
      var i :| OccursAt(s, t, i);
      assert s[1..][i - 1..i - 1 + |t|] == s[i..i + |t|];
      assert OccursAt(s[1..], t, i - 1);
    }
    if exists i :: OccursAt(s[1..], t, i) {
      var i :| OccursAt(s[1..], t, i);
      assert s[1..][i..i + |t|] == s[i + 1..i + 1 + |t|];
      assert OccursAt(s, t, i + 1);
    }
  }

  /** A suffix is in particular a substring. */
  lemma EndsWithContains(s: string, t: string)
    requires EndsWith(s, t)
    ensures Contains(s, t)
  {
    assert OccursAt(s, t, |s| - |t|);
  }

  /** A suffix of a suffix is a suffix. */
  lemma EndsWithTransitive(s: string, m: string, t: string)
    requires EndsWith(s, m) && EndsWith(m, t)
    ensures EndsWith(s, t)
  {
    assert s[|s| - |t|..] == m[|m| - |t|..];
  }

  /** A substring of a prefix is a substring of the whole string. */
  lemma ContainsInPrefix(a: string, b: string, t: string)
    requires Contains(a, t)
    ensures Contains(a + b, t)
  {
    var i :| OccursAt(a, t, i);
    assert (a + b)[i..i + |t|] == a[i..i + |t|];
    assert OccursAt(a + b, t, i);
  }

  /** A substring of a suffix is a substring of the whole string. */
  lemma ContainsInSuffix(a: string, b: string, t: string)
    requires Contains(b, t)
    ensures Contains(a + b, t)
  {
    var i :| OccursAt(b, t, i);
    assert (a + b)[|a| + i..|a| + i + |t|] == b[i..i + |t|];
    assert OccursAt(a + b, t, |a| + i);
  }

  /** Number of occurrences of the character `c` in `s`. */
  function Count(s: string, c: char): nat
  {
    if |s| == 0 then 0
    else (if s[0] == c then 1 else 0) + Count(s[1..], c)
  }

  /** Python's `sep.join(parts)` for a one-character separator. */
  function Join(parts: seq<string>, sep: char): string
  {
    if |parts| == 0 then ""
    else if |parts| == 1 then parts[0]
    else parts[0] + [sep] + Join(parts[1..], sep)
  }

  /** A character that is neither the separator nor in any part is not in the joined string. */
  lemma {:induction false} JoinAvoids(parts: seq<string>, sep: char, c: char)
    requires c != sep
    requires forall i :: 0 <= i < |parts| ==> c !in parts[i]
    ensures c !in Join(parts, sep)
    decreases |parts|
  {
    if |parts| > 1 {
      JoinAvoids(parts[1..], sep, c);
    }
  }

  /** Python's `s.split(sep)` for a one-character separator: there is always one field more than
      there are separators (so `"".split(",") == [""]`), no field holds the separator, and joining
      the fields back gives `s`. */
  function Split(s: string, sep: char): (fields: seq<string>)
    ensures |fields| == Count(s, sep) + 1
    ensures forall i :: 0 <= i < |fields| ==> sep !in fields[i]
    ensures Join(fields, sep) == s
    decreases |s|
  {
    if |s| == 0 then [""]
    else
      var rest := Split(s[1..], sep);
      assert s == [s[0]] + s[1..];
      if s[0] == sep then
        assert ([""] + rest)[1..] == rest;
        [""] + rest
      else
        JoinExtendsFirst(s[0], rest, sep);
        [[s[0]] + rest[0]] + rest[1..]
  }

  /** Prefixing the first field with a character prefixes the joined string with it. */
  lemma JoinExtendsFirst(c: char, parts: seq<string>, sep: char)
    requires |parts| >= 1
    ensures Join([[c] + parts[0]] + parts[1..], sep) == [c] + Join(parts, sep)
  {
    var fields := [[c] + parts[0]] + parts[1..];
    assert fields[1..] == parts[1..];
  }

  /** A string without the separator splits into itself. */
  lemma {:induction false} SplitWithoutSeparator(a: string, sep: char)
    requires sep !in a
    ensures Split(a, sep) == [a]
    decreases |a|
  {
    if |a| > 0 {
      SplitWithoutSeparator(a[1..], sep);
      assert [a[0]] + a[1..] == a;
    }
  }

  /** A separator after a separator-free field starts a new field. */
  lemma {:induction false} SplitAfterField(a: string, b: string, sep: char)
    requires sep !in a
    ensures Split(a + [sep] + b, sep) == [a] + Split(b, sep)
    decreases |a|
  {
    var s := a + [sep] + b;
    if |a| == 0 {
      assert s[1..] == b;
    } else {
      assert s[1..] == a[1..] + [sep] + b;
      SplitAfterField(a[1..], b, sep);
      assert [a[0]] + a[1..] == a;
    }
  }

  /** Splitting inverts joining when no field contains the separator: together with the `Join`
      clause of `Split` this makes the two functions mutual inverses. */
  lemma {:induction false} SplitOfJoin(parts: seq<string>, sep: char)
    requires |parts| >= 1
    requires forall i :: 0 <= i < |parts| ==> sep !in parts[i]
    ensures Split(Join(parts, sep), sep) == parts
    decreases |parts|
  {
    if |parts| == 1 {
      SplitWithoutSeparator(parts[0], sep);
    } else {
      SplitOfJoin(parts[1..], sep);
      SplitAfterField(parts[0], Join(parts[1..], sep), sep);
      assert [parts[0]] + parts[1..] == parts;
    }
  }

  /** The sanitising step applied to every config read: every newline character is removed
      and every other character is kept in order. */
  function CleanNewline(s: string): (r: string)
    ensures '\n' !in r
    ensures forall c :: c in r <==> c in s && c != '\n'
    ensures '\n' !in s ==> r == s
    ensures |r| == |s| - Count(s, '\n')
    ensures IsSubsequence(r, s)
  {
    if |s| == 0 then ""
    else
      var rest := CleanNewline(s[1..]);
      assert s == [s[0]] + s[1..];
      SubsequenceSkip(rest, s[1..], s[0]);
      if s[0] == '\n' then
        assert "" + rest == rest;
        rest
      else
        assert ([s[0]] + rest)[1..] == rest;
        [s[0]] + rest
  }

  /** Cleaning a concatenation cleans each part on its own. */
  lemma {:induction false} CleanNewlineAppend(a: string, b: string)
    ensures CleanNewline(a + b) == CleanNewline(a) + CleanNewline(b)
    decreases |a|
  {
    if |a| > 0 {
      assert (a + b)[0] == a[0];
      assert (a + b)[1..] == a[1..] + b;
      CleanNewlineAppend(a[1..], b);
    } else {
      assert a + b == b;
    }
  }

  /** Python's `s.replace(from, to)` for single characters. */
  function ReplaceChar(s: string, from: char, to: char): (r: string)
    ensures |r| == |s|
    ensures from != to ==> from !in r
    ensures forall i :: 0 <= i < |s| && s[i] == from ==> r[i] == to
    ensures forall i :: 0 <= i < |s| && s[i] != from ==> r[i] == s[i]
    ensures from !in s ==> r == s
  {
    seq(|s|, i requires 0 <= i < |s| => if s[i] == from then to else s[i])
  }
}
