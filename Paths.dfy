/**
 * Absolute paths as the collector handles them after `filepath.Abs`: clean,
 * so a path is fully described by its component names below the root "/".
 * Joining a directory with an entry name (`filepath.Join(dir, name)`) is
 * appending that name, and `filepath.Dir` / `filepath.Base` are the parent
 * and the last component, with Go's answer "/" for the root.
 */
module Paths {

  type Name = string

  /** The component names of an absolute path, outermost first; `[]` is "/". */
  type Path = seq<Name>

  /** A name a directory entry can have: not empty, no separator, not "." or "..". */
  predicate ValidName(n: Name)
  {
    |n| > 0 && '/' !in n && n != "." && n != ".."
  }

  /** A clean absolute path: every component is a valid name. */
  predicate ValidPath(p: Path)
  {
    forall i :: 0 <= i < |p| ==> ValidName(p[i])
  }

  function JoinNames(p: Path): string
  {
    if p == [] then "" else if |p| == 1 then p[0] else p[0] + "/" + JoinNames(p[1..])
  }

  /** The textual form of a clean absolute path. */
  function PathString(p: Path): (r: string)
    ensures |r| > 0 && r[0] == '/'
  {
    "/" + JoinNames(p)
  }

  /** `filepath.Dir` of a clean absolute path: its parent, "/" for the root. */
  function DirString(p: Path): string
  {
    if p == [] then "/" else PathString(p[..|p| - 1])
  }

  /** `filepath.Base` of a clean absolute path: its last name, "/" for the root. */
  function BaseString(p: Path): string
  {
    if p == [] then "/" else p[|p| - 1]
  }

  /** A child path reports its parent as directory and the child's name as base. */
  lemma JoinedDirAndBase(p: Path, n: Name)
    ensures DirString(p + [n]) == PathString(p)
    ensures BaseString(p + [n]) == n
  {
    assert (p + [n])[..|p|] == p;
  }

  /** In `a + "/" + t` with no separator in `a`, the first separator is at `|a|`. */
  lemma FirstSlash(a: string, t: string)
    requires '/' !in a
    ensures (a + "/" + t)[|a|] == '/'
    ensures forall k :: 0 <= k < |a| ==> (a + "/" + t)[k] != '/'
  {
    assert forall k :: 0 <= k < |a| ==> (a + "/" + t)[k] == a[k];
  }

  lemma SlashSplit(a: string, t: string, b: string, u: string)
    requires '/' !in a && '/' !in b
    requires a + "/" + t == b + "/" + u
    ensures a == b && t == u
  {
    var s := a + "/" + t;
    FirstSlash(a, t);
    FirstSlash(b, u);
    assert |a| == |b|;
    assert a == s[..|a|] && b == s[..|b|];
    assert t == s[|a| + 1..] && u == s[|b| + 1..];
  }

  lemma {:induction false} JoinNamesShape(p: Path)
    requires ValidPath(p)
    ensures p == [] <==> JoinNames(p) == ""
    ensures |p| == 1 ==> '/' !in JoinNames(p)
    ensures |p| > 1 ==> '/' in JoinNames(p)
  {
    if |p| > 1 {
      assert JoinNames(p) == p[0] + "/" + JoinNames(p[1..]);
      assert JoinNames(p)[|p[0]|] == '/';
    } else if |p| == 1 {
      assert |p[0]| > 0;
    }
  }

  /**
   * Distinct clean paths have distinct texts, so a map keyed by paths and
   * one keyed by their strings hold the same entries.
   */
  lemma {:induction false} PathStringInjective(p: Path, q: Path)
    requires ValidPath(p) && ValidPath(q)
    requires PathString(p) == PathString(q)
    ensures p == q
    decreases |p|
  {
    assert JoinNames(p) == PathString(p)[1..] == PathString(q)[1..] == JoinNames(q);
    JoinNamesShape(p);
    JoinNamesShape(q);
    if |p| > 1 && |q| > 1 {
      assert JoinNames(p) == p[0] + "/" + JoinNames(p[1..]);
      assert JoinNames(q) == q[0] + "/" + JoinNames(q[1..]);
      assert ValidName(p[0]) && ValidName(q[0]);
      SlashSplit(p[0], JoinNames(p[1..]), q[0], JoinNames(q[1..]));
      assert ValidPath(p[1..]) && ValidPath(q[1..]) by {
        assert forall i :: 0 <= i < |p| - 1 ==> p[1..][i] == p[i + 1];
        assert forall i :: 0 <= i < |q| - 1 ==> q[1..][i] == q[i + 1];
      }
      assert PathString(p[1..]) == PathString(q[1..]);
      PathStringInjective(p[1..], q[1..]);
      assert p == [p[0]] + p[1..] && q == [q[0]] + q[1..];
    }
  }
}
