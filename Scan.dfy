/**
 * `getSingleDirSizeInBytes` and `getAllDirSizesInBytes`.  `filepath.WalkDir`
 * visits the root and then, depth first in listing order, every entry below
 * each readable directory; the callback adds each visited entry's
 * `Info().Size()`, directories included, to an int64 total and returns the
 * first error it is handed, which stops the walk.
 */
module Scan {
  import opened Wrappers
  import opened Paths
  import opened FileTree

  const Int64Min: int := -0x8000_0000_0000_0000
  const Int64Bound: int := 0x8000_0000_0000_0000
  const TwoTo64: int := 0x1_0000_0000_0000_0000

  /** Go's int64 `+` wraps modulo 2^64 into [-2^63, 2^63). */
  function Wrap64(x: int): (r: int)
    ensures Int64Min <= r < Int64Bound
    ensures Int64Min <= x < Int64Bound ==> r == x
    ensures (x - r) % TwoTo64 == 0
  {
    (x - Int64Min) % TwoTo64 + Int64Min
  }

  /** Wrapping after every addition is wrapping once at the end. */
  lemma WrapAdd(a: int, b: int)
    ensures Wrap64(Wrap64(a) + b) == Wrap64(a + b)
  {
    var q := (a - Int64Min) / TwoTo64;
    assert Wrap64(a) == a - q * TwoTo64;
    ModShift(a + b - Int64Min, q);
  }

  lemma ModShift(x: int, q: int)
    ensures (x - q * TwoTo64) % TwoTo64 == x % TwoTo64
    decreases if q > 0 then q else -q
  {
    if q > 0 {
      ModShift(x, q - 1);
      assert x - q * TwoTo64 == (x - (q - 1) * TwoTo64) - TwoTo64;
    } else if q < 0 {
      ModShift(x, q + 1);
      assert x - q * TwoTo64 == (x - (q + 1) * TwoTo64) + TwoTo64;
    }
  }

  /** Why a walk stopped: `Lstat` of the root, `Info` of an entry, or `ReadDir` of a directory failed. */
  datatype WalkError = NotFound | InfoFailed | ReadDirFailed

  /** The error the callback returns at a node, `Info` being asked before `ReadDir`. */
  function NodeError(n: Node): Option<WalkError>
  {
    if n.info.None? then Some(InfoFailed)
    else if n.Dir? && !n.readable then Some(ReadDirFailed)
    else None
  }

  /** The size the callback adds for a node whose `Info` succeeded. */
  function SizeOf(n: Node): int
  {
    if n.info.Some? then n.info.value else 0
  }

  /** The nodes `WalkDir` hands to the callback under `n`, in order, if nothing stops it. */
  function Visited(n: Node): (r: seq<Node>)
    ensures |r| > 0 && r[0] == n
    decreases n, 1
  {
    match n
    case Dir(_, true, es) => [n] + VisitedForest(es, n)
    case _ => [n]
  }

  function VisitedForest(es: seq<Entry>, ghost owner: Node): seq<Node>
    requires forall e :: e in es ==> e.node < owner
    decreases owner, 0, |es|
  {
    if es == [] then [] else Visited(es[0].node) + VisitedForest(es[1..], owner)
  }

  /** The walks still to do for a stack of pending entries, front first. */
  function Pending(stack: seq<Entry>): seq<Node>
  {
    if stack == [] then [] else Visited(stack[0].node) + Pending(stack[1..])
  }

  /** The entries the walk descends into after visiting `n`. */
  function Children(n: Node): seq<Entry>
  {
    if n.Dir? && n.readable then n.entries else []
  }

  lemma {:induction false} ForestIsPending(es: seq<Entry>, owner: Node)
    requires forall e :: e in es ==> e.node < owner
    ensures VisitedForest(es, owner) == Pending(es)
    decreases |es|
  {
    if es != [] {
      ForestIsPending(es[1..], owner);
    }
  }

  lemma VisitedUnfold(n: Node)
    ensures Visited(n) == [n] + Pending(Children(n))
  {
    if n.Dir? && n.readable {
      ForestIsPending(n.entries, n);
    }
  }

  lemma {:induction false} PendingAppend(a: seq<Entry>, b: seq<Entry>)
    ensures Pending(a + b) == Pending(a) + Pending(b)
    decreases |a|
  {
    if a == [] {
      assert a + b == b;
    } else {
      assert (a + b)[1..] == a[1..] + b;
      PendingAppend(a[1..], b);
    }
  }

  /** The first error among visited nodes, which is the one that stops the walk. */
  function FirstError(vs: seq<Node>): Option<WalkError>
  {
    if vs == [] then None
    else if NodeError(vs[0]).Some? then NodeError(vs[0])
    else FirstError(vs[1..])
  }

  /** The mathematical sum of the sizes of visited nodes. */
  function TotalSize(vs: seq<Node>): int
  {
    if vs == [] then 0 else SizeOf(vs[0]) + TotalSize(vs[1..])
  }

  lemma {:induction false} FirstErrorAppend(a: seq<Node>, b: seq<Node>)
    ensures FirstError(a + b) == if FirstError(a).Some? then FirstError(a) else FirstError(b)
    decreases |a|
  {
    if a == [] {
      assert a + b == b;
    } else {
      assert (a + b)[1..] == a[1..] + b;
      FirstErrorAppend(a[1..], b);
    }
  }

  lemma {:induction false} TotalSizeAppend(a: seq<Node>, b: seq<Node>)
    ensures TotalSize(a + b) == TotalSize(a) + TotalSize(b)
    decreases |a|
  {
    if a == [] {
      assert a + b == b;
    } else {
      assert (a + b)[1..] == a[1..] + b;
      TotalSizeAppend(a[1..], b);
    }
  }

  /** An error is the first one exactly when it stands at a node and no node before it fails. */
  lemma {:induction false} FirstErrorMeans(vs: seq<Node>)
    ensures FirstError(vs).None? <==> forall i :: 0 <= i < |vs| ==> NodeError(vs[i]).None?
    ensures FirstError(vs).Some? ==>
              exists i :: 0 <= i < |vs| && NodeError(vs[i]) == FirstError(vs) &&
                          forall j :: 0 <= j < i ==> NodeError(vs[j]).None?
    decreases |vs|
  {
    if vs != [] {
      FirstErrorMeans(vs[1..]);
      if NodeError(vs[0]).None? && FirstError(vs[1..]).Some? {
        var i :| 0 <= i < |vs[1..]| && NodeError(vs[1..][i]) == FirstError(vs[1..]) &&
                 forall j :: 0 <= j < i ==> NodeError(vs[1..][j]).None?;
        assert NodeError(vs[i + 1]) == FirstError(vs);
      }
    }
  }

  /** One step of the walk: visit the front entry, then its children before the rest. */
  lemma WalkStep(done: seq<Node>, e: Entry, rest: seq<Entry>)
    ensures done + Pending([e] + rest) == (done + [e.node]) + Pending(Children(e.node) + rest)
    ensures FirstError(done).None? ==>
              FirstError(done + Pending([e] + rest)) ==
                if NodeError(e.node).Some? then NodeError(e.node)
                else FirstError((done + [e.node]) + Pending(Children(e.node) + rest))
    ensures FirstError(done).None? && NodeError(e.node).None? ==> FirstError(done + [e.node]).None?
    ensures Wrap64(Wrap64(TotalSize(done)) + SizeOf(e.node)) == Wrap64(TotalSize(done + [e.node]))
  {
    assert ([e] + rest)[1..] == rest;
    VisitedUnfold(e.node);
    PendingAppend(Children(e.node), rest);
    FirstErrorAppend(done, [e.node]);
    TotalSizeAppend(done, [e.node]);
    FirstErrorAppend(done + [e.node], Pending(Children(e.node) + rest));
    WrapAdd(TotalSize(done), SizeOf(e.node));
  }

  /**
   * What `getSingleDirSizeInBytes(directory)` returns: the first error of the
   * walk, or the int64 sum of the sizes of every visited entry, the root and
   * the directories included.  On error the partial total is dropped.
   */
  function DirSize(fs: Node, dir: Path): Result<int, WalkError>
  {
    match Lookup(fs, dir)
    case None => Failure(NotFound)
    case Some(n) =>
      match FirstError(Visited(n))
      case Some(e) => Failure(e)
      case None => Success(Wrap64(TotalSize(Visited(n))))
  }

  /**
   * `getSingleDirSizeInBytes`, with `WalkDir`'s recursion as an explicit
   * stack of entries still to visit and the callback's body inlined.
   */
  method ScanSize(fs: Node, dir: Path) returns (r: Result<int, WalkError>)
    ensures r == DirSize(fs, dir)
  {
    var root := Lookup(fs, dir);
    if root.None? {
      return Failure(NotFound);
    }
    var n := root.value;
    var total := 0;
    var stack := [Entry(BaseString(dir), n)];
    ghost var done: seq<Node> := [];
    assert Pending(stack) == Visited(n);
    while stack != []
      invariant Visited(n) == done + Pending(stack)
      invariant FirstError(done).None?
      invariant total == Wrap64(TotalSize(done))
      decreases |Visited(n)| - |done|
    {
      var e := stack[0];
      var rest := stack[1..];
      assert stack == [e] + rest;
      WalkStep(done, e, rest);
      var err := NodeError(e.node);
      if err.Some? {
        return Failure(err.value);
      }
      total := Wrap64(total + SizeOf(e.node));
      stack := Children(e.node) + rest;
      done := done + [e.node];
    }
    assert done == Visited(n);
    r := Success(total);
  }

  /**
   * `getAllDirSizesInBytes`: scan each directory in turn; a failed scan is
   * skipped and does not stop the others.
   */
  method GetAllDirSizes(fs: Node, directories: seq<Path>) returns (sizes: map<Path, int>)
    ensures forall d :: d in sizes <==> d in directories && DirSize(fs, d).Success?
    ensures forall d :: d in sizes ==> sizes[d] == DirSize(fs, d).value
  {
    sizes := map[];
    for i := 0 to |directories|
      invariant forall d :: d in sizes <==> d in directories[..i] && DirSize(fs, d).Success?
      invariant forall d :: d in sizes ==> sizes[d] == DirSize(fs, d).value
    {
      var directory := directories[i];
      var size := ScanSize(fs, directory);
      if size.Failure? {
        continue;
      }
      sizes := sizes[directory := size.value];
    }
  }

  /** The walk fails exactly when some visited entry fails, and then with the first such failure. */
  lemma DirSizeFails(fs: Node, dir: Path, n: Node)
    requires Lookup(fs, dir) == Some(n)
    ensures DirSize(fs, dir).Failure? <==> exists i :: 0 <= i < |Visited(n)| && NodeError(Visited(n)[i]).Some?
    ensures DirSize(fs, dir).Failure? ==>
              exists i :: 0 <= i < |Visited(n)| && NodeError(Visited(n)[i]) == Some(DirSize(fs, dir).error) &&
                          forall j :: 0 <= j < i ==> NodeError(Visited(n)[j]).None?
  {
    var vs := Visited(n);
    FirstErrorMeans(vs);
    assert DirSize(fs, dir).Failure? <==> FirstError(vs).Some?;
    if FirstError(vs).None? {
      assert DirSize(fs, dir).Success?;
      assert forall i :: 0 <= i < |vs| ==> NodeError(vs[i]).None?;
    } else {
      var err := FirstError(vs).value;
      assert DirSize(fs, dir) == Failure(err);
      var i :| 0 <= i < |vs| && NodeError(vs[i]) == FirstError(vs) &&
               forall j :: 0 <= j < i ==> NodeError(vs[j]).None?;
      assert NodeError(Visited(n)[i]) == Some(err);
      assert 0 <= i < |Visited(n)| && NodeError(Visited(n)[i]).Some?;
      assert DirSize(fs, dir).Failure?;
    }
  }

  /**
   * A readable directory's total is its own `Info().Size()` plus the totals of
   * its entries' subtrees: directories count, not only files.
   */
  lemma {:induction false} DirectoryOwnSizeCounts(n: Node)
    requires n.Dir? && n.readable
    ensures TotalSize(Visited(n)) == SizeOf(n) + TotalSize(Pending(n.entries))
  {
    VisitedUnfold(n);
    TotalSizeAppend([n], Pending(n.entries));
  }

  /** The tree of the example below: files of 100, 250 and 0 bytes and one empty sub-directory. */
  function ExampleTree(): Node
  {
    Dir(Some(4096), true, [Entry("a", Leaf(Some(100))), Entry("b", Leaf(Some(250))),
                           Entry("c", Leaf(Some(0))), Entry("d", Dir(Some(4096), true, []))])
  }

  lemma ExampleVisited()
    ensures Visited(ExampleTree()) ==
              [ExampleTree(), Leaf(Some(100)), Leaf(Some(250)), Leaf(Some(0)), Dir(Some(4096), true, [])]
  {
    var sub := Dir(Some(4096), true, []);
    var es := ExampleTree().entries;
    VisitedUnfold(ExampleTree());
    VisitedUnfold(sub);
    assert Pending(es[3..]) == [sub];
    assert Pending(es[2..]) == [Leaf(Some(0)), sub];
    assert Pending(es[1..]) == [Leaf(Some(250)), Leaf(Some(0)), sub];
  }

  /**
   * Scanning "/data" holding the example tree, where each directory's own
   * entry reports 4096 bytes, gives 8542, not the 350 bytes of its files.
   */
  lemma ExampleScan()
    ensures DirSize(Dir(Some(4096), true, [Entry("data", ExampleTree())]), ["data"]) == Success(8542)
  {
    var fs := Dir(Some(4096), true, [Entry("data", ExampleTree())]);
    assert Lookup(fs, ["data"]) == Some(ExampleTree());
    ExampleVisited();
    var vs := Visited(ExampleTree());
    assert TotalSize(vs[4..]) == 4096;
    assert TotalSize(vs[3..]) == 4096;
    assert TotalSize(vs[2..]) == 4346;
    assert TotalSize(vs[1..]) == 4446;
    assert FirstError(vs[4..]).None?;
    assert FirstError(vs[3..]).None?;
    assert FirstError(vs[2..]).None?;
    assert FirstError(vs[1..]).None?;
  }
}
