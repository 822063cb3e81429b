/**
 * The start-up expansion of the configured directories to `reporting.depth`:
 * each round replaces the list by the sub-directories of every directory in
 * it, in order, and a directory that cannot be listed stops the program.
 */
module Expansion {
  import opened Wrappers
  import opened Paths
  import opened FileTree

  /** Some entry called `n` in the listing is a directory. */
  predicate IsSubdirName(es: seq<Entry>, n: Name)
  {
    exists e :: e in es && e.node.Dir? && e.name == n
  }

  /** `p` can be listed and has a sub-directory called `n`: one "list immediate children" step. */
  predicate ChildDir(fs: Node, p: Path, n: Name)
  {
    ReadDir(fs, p).Success? && IsSubdirName(ReadDir(fs, p).value, n)
  }

  /** The paths appended for one listing: `Join(p, name)` for each directory entry, in listing order. */
  function SubdirPaths(p: Path, es: seq<Entry>): seq<Path>
  {
    if es == [] then []
    else
      var last := es[|es| - 1];
      SubdirPaths(p, es[..|es| - 1]) + (if last.node.Dir? then [p + [last.name]] else [])
  }

  /** A listing contributes exactly the directory entries' names joined to its directory. */
  lemma {:induction false} SubdirPathsMembers(p: Path, es: seq<Entry>)
    ensures forall q :: q in SubdirPaths(p, es) <==> |q| > 0 && q[..|q| - 1] == p && IsSubdirName(es, q[|q| - 1])
  {
    if es != [] {
      var init, last := es[..|es| - 1], es[|es| - 1];
      SubdirPathsMembers(p, init);
      assert es == init + [last];
      forall q
        ensures q in SubdirPaths(p, es) <==> |q| > 0 && q[..|q| - 1] == p && IsSubdirName(es, q[|q| - 1])
      {
        if |q| > 0 {
          var n := q[|q| - 1];
          assert IsSubdirName(es, n) <==> IsSubdirName(init, n) || (last.node.Dir? && last.name == n) by {
            if IsSubdirName(es, n) {
              var e :| e in es && e.node.Dir? && e.name == n;
              assert e in init || e == last;
            }
            if IsSubdirName(init, n) {
              var e :| e in init && e.node.Dir? && e.name == n;
              assert e in es;
            }
          }
          assert q == p + [last.name] <==> q[..|q| - 1] == p && n == last.name by {
            assert (p + [last.name])[..|p|] == p;
            assert q == q[..|q| - 1] + [n];
          }
        }
      }
    }
  }

  /** One expansion round: the concatenated sub-directory paths, or the first path that cannot be listed. */
  function Level(fs: Node, ps: seq<Path>): Result<seq<Path>, Path>
  {
    if ps == [] then Success([])
    else match ReadDir(fs, ps[0])
      case Failure(e) => Failure(e)
      case Success(es) =>
        match Level(fs, ps[1..])
        case Failure(e) => Failure(e)
        case Success(rest) => Success(SubdirPaths(ps[0], es) + rest)
  }

  /**
   * A round succeeds exactly when every directory can be listed; it then
   * holds the sub-directories of the listed directories and nothing else,
   * and on failure it names one directory that cannot be listed.
   */
  lemma {:induction false} LevelMeaning(fs: Node, ps: seq<Path>)
    ensures Level(fs, ps).Success? <==> forall j :: 0 <= j < |ps| ==> ReadDir(fs, ps[j]).Success?
    ensures Level(fs, ps).Failure? ==> Level(fs, ps).error in ps && ReadDir(fs, Level(fs, ps).error).Failure?
    ensures Level(fs, ps).Success? ==>
              forall q :: q in Level(fs, ps).value <==> |q| > 0 && q[..|q| - 1] in ps && ChildDir(fs, q[..|q| - 1], q[|q| - 1])
  {
    if ps != [] {
      LevelMeaning(fs, ps[1..]);
      assert forall j :: 0 < j < |ps| ==> ps[j] == ps[1..][j - 1];
      assert forall p :: p in ps <==> p == ps[0] || p in ps[1..];
      if ReadDir(fs, ps[0]).Success? {
        SubdirPathsMembers(ps[0], ReadDir(fs, ps[0]).value);
      }
    }
  }

  /**
   * On a well-formed tree, every path a round appends names a directory that
   * a later scan finds, and its last component is a valid name, so clean
   * paths stay clean.
   */
  lemma LevelPathsAreDirs(fs: Node, ps: seq<Path>)
    requires WellFormed(fs)
    requires Level(fs, ps).Success?
    ensures forall q :: q in Level(fs, ps).value ==> Lookup(fs, q).Some? && Lookup(fs, q).value.Dir?
    ensures (forall p :: p in ps ==> ValidPath(p)) ==> forall q :: q in Level(fs, ps).value ==> ValidPath(q)
  {
    forall q | q in Level(fs, ps).value
      ensures Lookup(fs, q).Some? && Lookup(fs, q).value.Dir?
      ensures |q| > 0 && q[..|q| - 1] in ps && (ValidPath(q[..|q| - 1]) ==> ValidPath(q))
    {
      LevelMember(fs, ps, q);
      var parent, name := q[..|q| - 1], q[|q| - 1];
      ChildDirIsDir(fs, parent, name);
      assert q == parent + [name];
      assert forall k :: 0 <= k < |parent| ==> q[k] == parent[k];
    }
  }

  lemma LevelMember(fs: Node, ps: seq<Path>, q: Path)
    requires Level(fs, ps).Success? && q in Level(fs, ps).value
    ensures |q| > 0 && q[..|q| - 1] in ps && ChildDir(fs, q[..|q| - 1], q[|q| - 1])
  {
    LevelMeaning(fs, ps);
  }

  /** On a well-formed tree, a sub-directory step leads to a directory, by a valid name. */
  lemma ChildDirIsDir(fs: Node, parent: Path, name: Name)
    requires WellFormed(fs)
    requires ChildDir(fs, parent, name)
    ensures Lookup(fs, parent + [name]).Some? && Lookup(fs, parent + [name]).value.Dir?
    ensures ValidName(name)
  {
    var d := Lookup(fs, parent).value;
    var e :| e in d.entries && e.node.Dir? && e.name == name;
    var i :| 0 <= i < |d.entries| && d.entries[i] == e;
    LookupWellFormed(fs, parent);
    LookupChild(fs, parent, i);
  }

  /**
   * On a well-formed tree, after at least one round every path in the list
   * names a directory, and clean configured paths give clean paths.
   */
  lemma {:induction false} ExpandPathsAreDirs(fs: Node, ps: seq<Path>, d: int)
    requires WellFormed(fs)
    requires Expand(fs, ps, d).Success?
    ensures d > 0 ==> forall q :: q in Expand(fs, ps, d).value ==> Lookup(fs, q).Some? && Lookup(fs, q).value.Dir?
    ensures (forall p :: p in ps ==> ValidPath(p)) ==> forall q :: q in Expand(fs, ps, d).value ==> ValidPath(q)
    decreases d
  {
    if d > 0 {
      ExpandPathsAreDirs(fs, ps, d - 1);
      LevelPathsAreDirs(fs, Expand(fs, ps, d - 1).value);
    }
  }

  /** `depth` rounds of expansion; no round at all when `depth <= 0`. */
  function Expand(fs: Node, ps: seq<Path>, depth: int): Result<seq<Path>, Path>
    decreases depth
  {
    if depth <= 0 then Success(ps)
    else match Expand(fs, ps, depth - 1)
      case Failure(e) => Failure(e)
      case Success(mid) => Level(fs, mid)
  }

  /**
   * `q` is the root `r` joined with exactly `d` names, each step going from a
   * listable directory to one of its sub-directories.
   */
  predicate Reachable(fs: Node, r: Path, q: Path, d: nat)
  {
    && |q| == |r| + d
    && q[..|r|] == r
    && forall k :: |r| <= k < |q| ==> ChildDir(fs, q[..k], q[k])
  }

  lemma ReachableStep(fs: Node, r: Path, q: Path, d: nat)
    requires d > 0
    ensures Reachable(fs, r, q, d) <==>
              |q| > 0 && Reachable(fs, r, q[..|q| - 1], d - 1) && ChildDir(fs, q[..|q| - 1], q[|q| - 1])
  {
    if |q| > 0 {
      var parent := q[..|q| - 1];
      assert forall k :: 0 <= k < |parent| ==> parent[..k] == q[..k] && parent[k] == q[k];
      if |q| >= |r| + 1 {
        assert parent[..|r|] == q[..|r|];
      }
    }
  }

  /** A failed round stays failed, with the same path, however many rounds follow. */
  lemma {:induction false} FailureSticks(fs: Node, ps: seq<Path>, k: int, depth: int)
    requires k <= depth
    requires Expand(fs, ps, k).Failure?
    ensures Expand(fs, ps, depth) == Expand(fs, ps, k)
    decreases depth - k
  {
    if k < depth {
      FailureSticks(fs, ps, k, depth - 1);
    }
  }

  /**
   * After `d` successful rounds the list holds exactly the paths reachable
   * from some configured directory by `d` sub-directory steps: each is a root
   * joined with `d` directory names, and the parents are gone.
   */
  lemma {:induction false} ExpandReachable(fs: Node, ps: seq<Path>, d: nat)
    requires Expand(fs, ps, d).Success?
    ensures forall q :: q in Expand(fs, ps, d).value <==> exists i :: 0 <= i < |ps| && Reachable(fs, ps[i], q, d)
  {
    forall q ensures q in Expand(fs, ps, d).value <==> exists i :: 0 <= i < |ps| && Reachable(fs, ps[i], q, d) {
      ExpandReachableAt(fs, ps, d, q);
    }
  }

  lemma {:induction false} ExpandReachableAt(fs: Node, ps: seq<Path>, d: nat, q: Path)
    requires Expand(fs, ps, d).Success?
    ensures q in Expand(fs, ps, d).value <==> exists i :: 0 <= i < |ps| && Reachable(fs, ps[i], q, d)
  {
    if d == 0 {
      if q in ps {
        var i :| 0 <= i < |ps| && ps[i] == q;
        assert Reachable(fs, ps[i], q, 0);
      }
      if exists i :: 0 <= i < |ps| && Reachable(fs, ps[i], q, 0) {
        var i :| 0 <= i < |ps| && Reachable(fs, ps[i], q, 0);
        assert q == q[..|ps[i]|];
      }
    } else {
      var out := Expand(fs, ps, d).value;
      var mid := Expand(fs, ps, d - 1).value;
      assert Level(fs, mid) == Success(out);
      LevelMeaning(fs, mid);
      if |q| > 0 {
        ExpandReachableAt(fs, ps, d - 1, q[..|q| - 1]);
      }
      if q in out {
        var i :| 0 <= i < |ps| && Reachable(fs, ps[i], q[..|q| - 1], d - 1);
        ReachableStep(fs, ps[i], q, d);
      }
      if exists i :: 0 <= i < |ps| && Reachable(fs, ps[i], q, d) {
        var i :| 0 <= i < |ps| && Reachable(fs, ps[i], q, d);
        ReachableStep(fs, ps[i], q, d);
      }
    }
  }

  /**
   * A failed expansion names a directory that cannot be listed and that the
   * expansion reached in one of its rounds.
   */
  lemma {:induction false} ExpandFailure(fs: Node, ps: seq<Path>, d: nat)
    requires Expand(fs, ps, d).Failure?
    ensures ReadDir(fs, Expand(fs, ps, d).error).Failure?
    ensures exists i, j :: 0 <= i < |ps| && 0 <= j < d && Reachable(fs, ps[i], Expand(fs, ps, d).error, j)
  {
    var p := Expand(fs, ps, d).error;
    if Expand(fs, ps, d - 1).Failure? {
      ExpandFailure(fs, ps, d - 1);
    } else {
      ExpandReachable(fs, ps, d - 1);
      LevelMeaning(fs, Expand(fs, ps, d - 1).value);
      var i :| 0 <= i < |ps| && Reachable(fs, ps[i], p, d - 1);
    }
  }

  /**
   * The expansion loop: `depth` times, run one round over the current list
   * and replace the list by its result; a listing failure is fatal.
   */
  method ExpandDirectories(fs: Node, directories: seq<Path>, depth: int) returns (r: Result<seq<Path>, Path>)
    ensures r == Expand(fs, directories, depth)
    ensures depth <= 0 ==> r == Success(directories)
  {
    var dirs := directories;
    var i := 0;
    while i < depth
      invariant 0 <= i && (i <= depth || i == 0)
      invariant Expand(fs, directories, i) == Success(dirs)
    {
      var next := ExpandRound(fs, dirs);
      if next.Failure? {
        FailureSticks(fs, directories, i + 1, depth);
        return next;
      }
      dirs := next.value;
      i := i + 1;
    }
    r := Success(dirs);
  }

  /**
   * One round of the expansion loop: list every directory in turn and
   * append `Join(dir, name)` for each of its directory entries.
   */
  method ExpandRound(fs: Node, dirs: seq<Path>) returns (r: Result<seq<Path>, Path>)
    ensures r == Level(fs, dirs)
  {
    var newDirs: seq<Path> := [];
    assert dirs[0..] == dirs;
    PrependNothing(Level(fs, dirs));
    for j := 0 to |dirs|
      invariant Level(fs, dirs) == Prepend(newDirs, Level(fs, dirs[j..]))
    {
      var dir := dirs[j];
      var subdirs := ReadDir(fs, dir);
      LevelFromIndex(fs, dirs, j);
      if subdirs.Failure? {
        return Failure(dir);
      }
      var es := subdirs.value;
      ghost var before := newDirs;
      newDirs := AppendSubdirs(newDirs, dir, es);
      PrependTwice(before, SubdirPaths(dir, es), Level(fs, dirs[j + 1..]));
    }
    assert dirs[|dirs|..] == [];
    assert newDirs + [] == newDirs;
    r := Success(newDirs);
  }

  /** A round from index `j` lists `dirs[j]`, then does the rest. */
  lemma LevelFromIndex(fs: Node, dirs: seq<Path>, j: int)
    requires 0 <= j < |dirs|
    ensures ReadDir(fs, dirs[j]).Failure? ==> Level(fs, dirs[j..]) == Failure(dirs[j])
    ensures ReadDir(fs, dirs[j]).Success? ==>
              Level(fs, dirs[j..]) == Prepend(SubdirPaths(dirs[j], ReadDir(fs, dirs[j]).value), Level(fs, dirs[j + 1..]))
  {
    assert dirs[j..][0] == dirs[j];
    assert dirs[j..][1..] == dirs[j + 1..];
  }

  lemma PrependNothing(r: Result<seq<Path>, Path>)
    ensures Prepend([], r) == r
  {
    if r.Success? {
      assert [] + r.value == r.value;
    }
  }

  lemma PrependTwice(a: seq<Path>, b: seq<Path>, r: Result<seq<Path>, Path>)
    ensures Prepend(a, Prepend(b, r)) == Prepend(a + b, r)
  {
    if r.Success? {
      assert a + (b + r.value) == (a + b) + r.value;
    }
  }

  /** The innermost loop: append `Join(dir, name)` for each directory entry of a listing. */
  method AppendSubdirs(acc: seq<Path>, dir: Path, es: seq<Entry>) returns (r: seq<Path>)
    ensures r == acc + SubdirPaths(dir, es)
  {
    r := acc;
    for k := 0 to |es|
      invariant r == acc + SubdirPaths(dir, es[..k])
    {
      assert es[..k + 1][..k] == es[..k];
      if es[k].node.Dir? {
        r := r + [dir + [es[k].name]];
      }
    }
    assert es[..|es|] == es;
  }

  function Prepend(acc: seq<Path>, r: Result<seq<Path>, Path>): Result<seq<Path>, Path>
  {
    match r
    case Success(rest) => Success(acc + rest)
    case Failure(e) => Failure(e)
  }
}
